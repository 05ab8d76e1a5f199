/** The reservation book of the topology (src/nfvcl/topology/topology.py), one atomic step at a time. */
module TopologyBook {
  import opened Wrappers
  import opened Ipam
  import opened NetworkModels

  type Book = seq<Net>

  /** find_net_index: the first network of that name, or the length. */
  function FindNet(book: Book, name: string): (k: nat)
    ensures k <= |book| && (k < |book| ==> book[k].name == name)
    ensures forall i :: 0 <= i < k ==> book[i].name != name
  {
    if book == [] || book[0].name == name then 0 else 1 + FindNet(book[1..], name)
  }

  function ReservedAt(book: Book, k: nat, length: int, owner: string): (Book, Result<Range, IpError>)
    requires k < |book|
  {
    var net := book[k];
    match RangeInCidr(net.cidr, net.Taken(), length)
    case Err(e) => (book, Err(e))
    case Ok(p) =>
      if net.external then (book, Err(External))
      else
        var r := Range(p.start, p.end, owner);
        match AddReserved(net.reserved, r)
        case Err(e) => (book, Err(e))
        case Ok(rs) => (book[k := net.(reserved := rs)], Ok(r))
  }

  /** The specification of reserve_range. */
  function AfterReserve(book: Book, name: string, length: int, owner: string): (Book, Result<Range, IpError>) {
    var k := FindNet(book, name);
    if k == |book| then (book, Err(UnknownNetwork)) else ReservedAt(book, k, length, owner)
  }

  function ReleasedAt(book: Book, k: nat, owner: string, range: Option<Range>)
    : (Book, Result<Option<Range>, IpError>)
    requires k < |book|
  {
    var (rs, res) := Released(book[k].reserved, owner, range);
    (book[k := book[k].(reserved := rs)], res)
  }

  /** The networks in turn from k on, up to the first that releases something or raises. */
  function ReleasedFrom(book: Book, k: nat, owner: string, range: Option<Range>)
    : (out: (Book, Result<Option<Range>, IpError>))
    requires k <= |book|
    ensures |out.0| == |book|
    decreases |book| - k
  {
    if k == |book| then (book, Ok(None))
    else
      var (b, res) := ReleasedAt(book, k, owner, range);
      if res == Ok(None) then ReleasedFrom(book, k + 1, owner, range) else (b, res)
  }

  /** The specification of release_ranges. */
  function AfterRelease(book: Book, owner: string, range: Option<Range>, name: Option<string>)
    : (Book, Result<Option<Range>, IpError>)
  {
    match name
    case None => ReleasedFrom(book, 0, owner, range)
    case Some(n) =>
      var k := FindNet(book, n);
      if k == |book| then (book, Err(UnknownNetwork)) else ReleasedAt(book, k, owner, range)
  }

  /** A network that releases nothing is passed over. */
  lemma PassedOver(book: Book, k: nat, owner: string, range: Option<Range>)
    requires k < |book| && Released(book[k].reserved, owner, range) == (book[k].reserved, Ok(None))
    ensures ReleasedFrom(book, k, owner, range) == ReleasedFrom(book, k + 1, owner, range)
  {
    assert book[k := book[k]] == book;
  }

  lemma StoppedAt(book: Book, k: nat, owner: string, range: Option<Range>)
    requires k < |book| && Released(book[k].reserved, owner, range).1 != Ok(None)
    ensures ReleasedFrom(book, k, owner, range) == ReleasedAt(book, k, owner, range)
  {
  }

  lemma ChangedAt(after: Book, before: Book, k: nat, net: Net)
    requires |after| == |before| && k < |before| && after[k] == net
    requires forall i :: 0 <= i < |before| && i != k ==> after[i] == before[i]
    ensures after == before[k := net]
  {
  }

  /** The first network of that name, which is not external, has the range as its last reservation. */
  ghost predicate Appended(before: Book, name: string, k: int, r: Range, after: Book) {
    && 0 <= k < |before| && before[k].name == name && (forall i :: 0 <= i < k ==> before[i].name != name)
    && !before[k].external
    && after == before[k := before[k].(reserved := before[k].reserved + [r])]
  }

  // --------------------------------------------------------- the topology object

  class Topology {
    var networks: seq<NetworkModel>
    var vims: set<string> // the names of the VIMs

    constructor (networks: seq<NetworkModel>, vims: set<string>)
      ensures this.networks == networks && this.vims == vims
    {
      this.networks, this.vims := networks, vims;
    }

    /** Each network is an object of its own. */
    ghost predicate Valid()
      reads this
    {
      forall i, j :: 0 <= i < j < |networks| ==> networks[i] != networks[j]
    }

    ghost function Value(): (b: Book)
      reads this, networks
      ensures |b| == |networks| && forall i :: 0 <= i < |b| ==> b[i] == networks[i].Value()
    {
      seq(|networks|, i requires 0 <= i < |networks| reads this, networks => networks[i].Value())
    }

    method FindNetIndex(name: string) returns (k: nat)
      ensures k == FindNet(Value(), name)
    {
      k := 0;
      while k < |networks| && networks[k].name != name
        invariant k <= |networks|
        invariant forall i :: 0 <= i < k ==> Value()[i].name != name
      {
        k := k + 1;
      }
    }

    /**
     * A VIM that is given must be known; that it has no such network is only logged. A success appends
     * one range of the owner to the first network of that name, which is not external.
     */
    method ReserveRange(name: string, length: int, owner: string, vim: Option<string>)
      returns (res: Result<Range, IpError>)
      requires Valid()
      modifies networks
      ensures res.Err? ==> Value() == old(Value())
      ensures res.Ok? ==> exists k :: Appended(old(Value()), name, k, res.value, Value())
      ensures res.Ok? ==> res.value.owner == owner && (vim.Some? ==> vim.value == "" || vim.value in vims)
      ensures (forall i :: 0 <= i < |networks| ==> networks[i].name != name) ==> res == Err(UnknownNetwork)
      ensures (Value(), res) ==
              if FindNet(old(Value()), name) < |networks| && vim.Some? && vim.value != "" && vim.value !in vims
              then (old(Value()), Err(UnknownVim))
              else AfterReserve(old(Value()), name, length, owner)
    {
      ghost var book := Value();
      var k := FindNetIndex(name);
      if k == |networks| { return Err(UnknownNetwork); }
      if vim.Some? && vim.value != "" && vim.value !in vims { return Err(UnknownVim); }
      res := ReserveOn(k, length, owner);
      if res.Ok? { assert Appended(book, name, k, res.value, Value()); }
    }

    method ReserveOn(k: nat, length: int, owner: string) returns (res: Result<Range, IpError>)
      requires Valid() && k < |networks|
      modifies networks[k]
      ensures (Value(), res) == ReservedAt(old(Value()), k, length, owner)
    {
      ghost var book := Value();
      var net := networks[k];
      var found := GetRangeInCidr(net.cidr, net.allocationPool + Pools(net.reservedRanges), length);
      assert book[k].Taken() == net.allocationPool + Pools(net.reservedRanges);
      if found.Err? { return Err(found.error); }
      if net.external { return Err(External); }
      var r := Range(found.value.start, found.value.end, owner);
      var added := net.AddReservedRange(r);
      if added.Err? {
        assert Value() == book;
        return Err(added.error);
      }
      ChangedAt(Value(), book, k, net.Value());
      res := Ok(r);
    }

    method ReleaseOn(k: nat, owner: string, range: Option<Range>) returns (res: Result<Option<Range>, IpError>)
      requires Valid() && k < |networks|
      modifies networks[k]
      ensures (Value(), res) == ReleasedAt(old(Value()), k, owner, range)
    {
      ghost var book := Value();
      res := networks[k].ReleaseRange(owner, range);
      ChangedAt(Value(), book, k, networks[k].Value());
    }

    method ReleaseRanges(owner: string, range: Option<Range>, name: Option<string>)
      returns (res: Result<Option<Range>, IpError>)
      requires Valid()
      modifies networks
      ensures (Value(), res) == AfterRelease(old(Value()), owner, range, name)
    {
      if name.Some? {
        var k := FindNetIndex(name.value);
        if k == |networks| { return Err(UnknownNetwork); }
        res := ReleaseOn(k, owner, range);
        return;
      }
      ghost var book := Value();
      res := Ok(None);
      var k := 0;
      while k < |networks|
        invariant k <= |networks|
        invariant Value() == book && res == Ok(None)
        invariant ReleasedFrom(book, 0, owner, range) == ReleasedFrom(book, k, owner, range)
      {
        res := ReleaseOn(k, owner, range);
        if res != Ok(None) {
          StoppedAt(book, k, owner, range);
          return;
        }
        NothingReleased(book[k].reserved, owner, range);
        PassedOver(book, k, owner, range);
        assert book[k := book[k]] == book;
        k := k + 1;
      }
    }
  }

  lemma NothingReleased(rs: seq<Range>, owner: string, range: Option<Range>)
    ensures !Released(rs, owner, range).1.Ok? || Released(rs, owner, range).1.value.None?
            ==> Released(rs, owner, range).0 == rs
  {
  }

  // ----------------------------------------------------------- runs of the book

  ghost predicate Inv(book: Book) {
    forall i :: 0 <= i < |book| ==> book[i].Inv()
  }

  datatype Op =
    | Reserve(name: string, length: int, owner: string)
    | Release(owner: string, range: Option<Range>, network: Option<string>)

  function Step(book: Book, op: Op): Book {
    match op
    case Reserve(n, l, o) => AfterReserve(book, n, l, o).0
    case Release(o, r, n) => AfterRelease(book, o, r, n).0
  }

  function Run(book: Book, ops: seq<Op>): Book
    decreases |ops|
  {
    if ops == [] then book else Run(Step(book, ops[0]), ops[1..])
  }

  /**
   * The request keeps Inv: its length is at least 1, or it is 0 and an address other than the last
   * of the window is offered.
   */
  ghost predicate Reasonable(net: Net, length: int) {
    length >= 1 || (length == 0 && exists x :: x < net.cidr.Hi() && Offered(net.cidr, net.Taken(), x))
  }

  lemma RangeForNet(net: Net, length: int, owner: string)
    requires net.Inv()
    ensures match RangeInCidr(net.cidr, net.Taken(), length)
            case Ok(p) =>
              && AddReserved(net.reserved, Range(p.start, p.end, owner))
                 == Ok(net.reserved + [Range(p.start, p.end, owner)])
              && (net.(reserved := net.reserved + [Range(p.start, p.end, owner)]).Inv() <==> Reasonable(net, length))
            case Err(_) => true
  {
    if net.cidr.HasWindow() && RangeInCidr(net.cidr, net.Taken(), length).Ok? {
      var p := RangeInCidr(net.cidr, net.Taken(), length).value;
      var r := Range(p.start, p.end, owner);
      GrantedPasses(net, length, r);
      AllocationKeepsInv(net.cidr, net.Taken(), length);
      TakenAppend(net, r);
    }
  }

  lemma TakenAppend(net: Net, r: Range)
    ensures net.(reserved := net.reserved + [r]).Taken() == net.Taken() + [r.Pool()]
  {
    PoolsAppend(net.reserved, r);
  }

  /** The overlap check never refuses what the allocator grants. */
  lemma GrantedPasses(net: Net, length: int, r: Range)
    requires net.Inv() && net.cidr.HasWindow() && RangeInCidr(net.cidr, net.Taken(), length) == Ok(r.Pool())
    ensures AddReserved(net.reserved, r) == Ok(net.reserved + [r])
  {
    if length < 0 {
      NegativeLength(net.cidr, net.Taken(), length);
      InvertedNotFound(net.reserved, r);
    } else {
      GrantedIsFree(net, length);
      FreeRangePasses(net, r);
    }
  }

  lemma GrantedIsFree(net: Net, length: int)
    requires net.Inv() && net.cidr.HasWindow() && length >= 0
    requires RangeInCidr(net.cidr, net.Taken(), length).Ok?
    ensures var p := RangeInCidr(net.cidr, net.Taken(), length).value;
            && p.end == p.start + length
            && forall x :: p.start <= x <= p.end ==> Free(net.cidr, net.Taken(), x)
  {
    if length == 0 { AllocatesLowestAddress(net.cidr, net.Taken()); }
    else { AllocatesLowestRun(net.cidr, net.Taken(), length); }
  }

  /** A reservation keeps Inv iff it fails or is reasonable. */
  lemma ReserveKeepsInv(book: Book, name: string, length: int, owner: string)
    requires Inv(book)
    ensures Inv(AfterReserve(book, name, length, owner).0) <==>
            AfterReserve(book, name, length, owner).1.Err? || Reasonable(book[FindNet(book, name)], length)
  {
    var k := FindNet(book, name);
    if k < |book| {
      var net := book[k];
      var (after, res) := AfterReserve(book, name, length, owner);
      RangeForNet(net, length, owner);
      if res.Ok? {
        ReserveAppends(book, name, length, owner);
        assert after[k] == net.(reserved := net.reserved + [res.value]);
        assert forall i :: 0 <= i < |book| && i != k ==> after[i] == book[i];
      }
    }
  }

  /** What the range starting at a offers for a reservation of that length, 0 included. */
  ghost predicate Grantable(net: Net, a: int, length: int) {
    if length == 0 then Offered(net.cidr, net.Taken(), a) else FreeRun(net.cidr, net.Taken(), a, length)
  }

  /**
   * Under Inv a reservation on a known network that is not external succeeds iff length + 1
   * consecutive addresses are free, and takes the lowest; for length 0 the address must not be a
   * one-address gap before a reservation. Neither the range check nor the overlap check rejects it.
   */
  lemma ReserveFailsOnlyForSpace(book: Book, name: string, length: int, owner: string)
    requires Inv(book) && length >= 0
    requires var k := FindNet(book, name); k < |book| && !book[k].external && book[k].cidr.HasWindow()
    ensures var (after, res) := AfterReserve(book, name, length, owner);
            var k := FindNet(book, name);
            var net := book[k];
            match res
            case Ok(r) =>
              && r == Range(r.start, r.start + length, owner)
              && Grantable(net, r.start, length)
              && (forall b :: Grantable(net, b, length) ==> r.start <= b)
              && after == book[k := net.(reserved := net.reserved + [r])]
            case Err(e) =>
              && e == NoRoom
              && (forall b :: !Grantable(net, b, length))
              && after == book
  {
    hide RangeInCidr, AddReserved, Grantable;
    var net := book[FindNet(book, name)];
    assert net.Inv();
    RangeForNet(net, length, owner);
    GrantsLowest(net, length);
  }

  lemma GrantsLowest(net: Net, length: int)
    requires net.Inv() && net.cidr.HasWindow() && length >= 0
    ensures match RangeInCidr(net.cidr, net.Taken(), length)
            case Ok(p) =>
              && p.end == p.start + length && Grantable(net, p.start, length)
              && (forall b :: Grantable(net, b, length) ==> p.start <= b)
            case Err(e) => e == NoRoom && forall b :: !Grantable(net, b, length)
  {
    if length == 0 { AllocatesLowestAddress(net.cidr, net.Taken()); }
    else { AllocatesLowestRun(net.cidr, net.Taken(), length); }
  }

  /**
   * A negative length: where it succeeds, every later reservation on that network is refused for a
   * bad range, whatever its length, and releasing the range by its addresses finds nothing.
   */
  lemma NegativeLengthBlocksNetwork(book: Book, name: string, length: int, owner: string)
    requires Inv(book) && length < 0 && AfterReserve(book, name, length, owner).1.Ok?
    ensures var (after, res) := AfterReserve(book, name, length, owner);
            && (forall l, o :: AfterReserve(after, name, l, o) == (after, Err(BadRange)))
            && AfterRelease(after, owner, Some(res.value), Some(name)) == (after, Ok(None))
  {
    var k := FindNet(book, name);
    var (after, res) := AfterReserve(book, name, length, owner);
    var net, r := book[k], res.value;
    assert net.Inv();
    NegativeLength(net.cidr, net.Taken(), length);
    FindNetAfterUpdate(book, k, after[k], name);
    InvalidBlocks(after[k], |net.reserved|);
    InvertedNotFound(after[k].reserved, r);
    assert after[k := after[k]] == after;
  }

  /** With one invalid reservation the free list fails. */
  lemma InvalidBlocks(net: Net, i: nat)
    requires i < |net.reserved| && net.reserved[i].end < net.reserved[i].start && net.cidr.HasWindow()
    ensures forall l :: RangeInCidr(net.cidr, net.Taken(), l) == Err(BadRange)
  {
    TakenAt(net, i);
    assert !Valid(net.cidr, net.Taken()[|net.pools| + i]);
  }

  lemma PoolsAppend(rs: seq<Range>, r: Range)
    ensures Pools(rs + [r]) == Pools(rs) + [r.Pool()]
  {
  }

  lemma ReleasedAtKeepsInv(book: Book, k: nat, owner: string, range: Option<Range>)
    requires Inv(book) && k < |book|
    ensures Inv(ReleasedAt(book, k, owner, range).0)
  {
    ReleaseKeepsInv(book[k], owner, range);
  }

  lemma {:induction false} ReleasedFromKeepsInv(book: Book, k: nat, owner: string, range: Option<Range>)
    requires Inv(book) && k <= |book|
    ensures Inv(ReleasedFrom(book, k, owner, range).0)
    decreases |book| - k
  {
    if k < |book| {
      var rs := book[k].reserved;
      if Released(rs, owner, range).1 == Ok(None) {
        NothingReleased(rs, owner, range);
        PassedOver(book, k, owner, range);
        ReleasedFromKeepsInv(book, k + 1, owner, range);
      } else {
        StoppedAt(book, k, owner, range);
        ReleasedAtKeepsInv(book, k, owner, range);
      }
    }
  }

  /** A reservation that is refused, or a reasonable one, or a release. */
  ghost predicate Sound(book: Book, op: Op) {
    op.Reserve? && AfterReserve(book, op.name, op.length, op.owner).1.Ok? ==>
      Reasonable(book[FindNet(book, op.name)], op.length)
  }

  /** Each step keeps Inv iff it is sound: all lengths of at least 1 are, refused requests, all releases. */
  lemma StepKeepsInv(book: Book, op: Op)
    requires Inv(book)
    ensures Inv(Step(book, op)) <==> Sound(book, op)
  {
    match op
    case Reserve(n, l, o) => ReserveKeepsInv(book, n, l, o);
    case Release(o, r, n) =>
      if n.Some? {
        var k := FindNet(book, n.value);
        if k < |book| { ReleasedAtKeepsInv(book, k, o, r); }
      } else {
        ReleasedFromKeepsInv(book, 0, o, r);
      }
  }

  ghost predicate AllSound(book: Book, ops: seq<Op>)
    decreases |ops|
  {
    ops == [] || (Sound(book, ops[0]) && AllSound(Step(book, ops[0]), ops[1..]))
  }

  /** A run with lengths of at least 1 only is sound. */
  lemma {:induction false} PositiveIsSound(book: Book, ops: seq<Op>)
    requires forall i :: 0 <= i < |ops| && ops[i].Reserve? ==> ops[i].length >= 1
    ensures AllSound(book, ops)
    decreases |ops|
  {
    if ops != [] { PositiveIsSound(Step(book, ops[0]), ops[1..]); }
  }

  /**
   * Every sound run of reservations and releases keeps Inv, so no two reservations of a network ever
   * share an address, and none leaves its network.
   */
  lemma {:induction false} RunsStayApart(book: Book, ops: seq<Op>)
    requires Inv(book) && AllSound(book, ops)
    ensures Inv(Run(book, ops))
    ensures forall n, i, j ::
              var after := Run(book, ops);
              0 <= n < |after| && 0 <= i < j < |after[n].reserved| ==>
                Apart(after[n].reserved[i].Pool(), after[n].reserved[j].Pool())
    decreases |ops|
  {
    if ops == [] {
      forall n, i, j | 0 <= n < |book| && 0 <= i < j < |book[n].reserved|
        ensures Apart(book[n].reserved[i].Pool(), book[n].reserved[j].Pool())
      {
        ReservationsApart(book[n], i, j);
      }
    } else {
      StepKeepsInv(book, ops[0]);
      RunsStayApart(Step(book, ops[0]), ops[1..]);
    }
  }

  lemma ReserveAppends(book: Book, name: string, length: int, owner: string)
    requires AfterReserve(book, name, length, owner).1.Ok?
    ensures var (after, res) := AfterReserve(book, name, length, owner);
            var k := FindNet(book, name);
            && k < |book|
            && res.value.owner == owner && res.value.end == res.value.start + length
            && AddReserved(book[k].reserved, res.value) == Ok(book[k].reserved + [res.value])
            && after == book[k := book[k].(reserved := book[k].reserved + [res.value])]
  {
    var net := book[FindNet(book, name)];
    var i := FirstFitIs(FreeRanges(net.cidr, net.Taken()).value, length);
  }

  /** Reserving on a network and releasing that range there restores the book iff the length is not negative. */
  lemma ReserveThenRelease(book: Book, name: string, length: int, owner: string)
    requires Inv(book)
    requires AfterReserve(book, name, length, owner).1.Ok?
    ensures var (after, res) := AfterReserve(book, name, length, owner);
            AfterRelease(after, owner, Some(res.value), Some(name)) == (book, Ok(Some(res.value))) <==> length >= 0
  {
    if length < 0 {
      NegativeLengthBlocksNetwork(book, name, length, owner);
    } else {
      ReserveAppends(book, name, length, owner);
      var (after, res) := AfterReserve(book, name, length, owner);
      RestoredAt(book, FindNet(book, name), name, res.value, after);
    }
  }

  lemma RestoredAt(book: Book, k: nat, name: string, r: Range, after: Book)
    requires k == FindNet(book, name) < |book|
    requires AddReserved(book[k].reserved, r) == Ok(book[k].reserved + [r]) && r.start <= r.end
    requires after == book[k := book[k].(reserved := book[k].reserved + [r])]
    ensures AfterRelease(after, r.owner, Some(r), Some(name)) == (book, Ok(Some(r)))
    ensures ReleasedAt(after, k, r.owner, Some(r)) == (book, Ok(Some(r)))
  {
    FindNetAfterUpdate(book, k, after[k], name);
    ReserveReleaseRestores(book[k].reserved, r);
    assert after[k := book[k]] == book;
  }

  lemma {:induction false} FindNetAfterUpdate(book: Book, k: nat, net: Net, name: string)
    requires k < |book| && net.name == book[k].name
    ensures FindNet(book[k := net], name) == FindNet(book, name)
  {
    var a, b := FindNet(book[k := net], name), FindNet(book, name);
    assert forall i :: 0 <= i < |book| ==> book[k := net][i].name == book[i].name;
  }

  ghost predicate NoneOn(net: Net, r: Range) {
    forall j :: 0 <= j < |net.reserved| ==> !net.reserved[j].Overlaps(r)
  }

  /** No range on the first k networks passes for r. */
  ghost predicate NoneBefore(book: Book, k: nat, r: Range) {
    forall i :: 0 <= i < k && i < |book| ==> NoneOn(book[i], r)
  }

  lemma NonePasses(book: Book, i: nat, r: Range)
    requires i < |book| && NoneOn(book[i], r)
    ensures ReleasedFrom(book, i, r.owner, Some(r)) == ReleasedFrom(book, i + 1, r.owner, Some(r))
  {
    NothingFirst(book[i].reserved, r.owner, Some(r));
    PassedOver(book, i, r.owner, Some(r));
  }

  /** Nothing on the networks before k: the release goes on to k. */
  lemma {:induction false} ReleaseReaches(book: Book, i: nat, k: nat, r: Range)
    requires i <= k < |book| && NoneBefore(book, k, r)
    ensures ReleasedFrom(book, i, r.owner, Some(r)) == ReleasedFrom(book, k, r.owner, Some(r))
    decreases k - i
  {
    hide Released;
    if i < k {
      NonePasses(book, i, r);
      ReleaseReaches(book, i + 1, k, r);
    }
  }

  /** Something before k: the release stops there and network k is as before. */
  lemma {:induction false} ReleaseStopsBefore(book: Book, i: nat, k: nat, r: Range)
    requires i <= k < |book| && !NoneBefore(book, k, r) && NoneBefore(book, i, r)
    ensures ReleasedFrom(book, i, r.owner, Some(r)).0[k] == book[k]
    decreases k - i
  {
    if i == k {
      assert false;
    } else {
      var rs := book[i].reserved;
      if First(rs, (e: Range) => e.Overlaps(r)) == |rs| {
        NonePasses(book, i, r);
        ReleaseStopsBefore(book, i + 1, k, r);
      }
    }
  }

  /**
   * Without the name of the network, reserving and releasing that range restores the book iff the
   * length is not negative and no earlier network holds a range that passes for it.
   */
  lemma ReleaseWithoutName(book: Book, name: string, length: int, owner: string)
    requires Inv(book)
    requires AfterReserve(book, name, length, owner).1.Ok?
    ensures var (after, res) := AfterReserve(book, name, length, owner);
            AfterRelease(after, owner, Some(res.value), None) == (book, Ok(Some(res.value))) <==>
            length >= 0 && NoneBefore(book, FindNet(book, name), res.value)
  {
    var k := FindNet(book, name);
    var (after, res) := AfterReserve(book, name, length, owner);
    var r := res.value;
    ReserveAppends(book, name, length, owner);
    assert forall i :: 0 <= i < k ==> after[i] == book[i];
    assert NoneBefore(after, k, r) <==> NoneBefore(book, k, r);
    if !NoneBefore(book, k, r) {
      ReleaseStopsBefore(after, 0, k, r);
      assert |after[k].reserved| == |book[k].reserved| + 1;
    } else {
      ReleaseReaches(after, 0, k, r);
      if length < 0 {
        NegativeLengthBlocksNetwork(book, name, length, owner);
        NothingLeft(after, k, r);
      } else {
        RestoredAt(book, k, name, r, after);
      }
    }
  }

  /** An inverted range is found nowhere. */
  lemma {:induction false} NothingLeft(book: Book, k: nat, r: Range)
    requires k <= |book| && r.end < r.start
    ensures ReleasedFrom(book, k, r.owner, Some(r)).0 == book
    decreases |book| - k
  {
    if k < |book| {
      InvertedNotFound(book[k].reserved, r);
      assert book[k := book[k]] == book;
      NothingLeft(book, k + 1, r);
    }
  }

  /** A witness: the two networks share addresses, and the release takes another owner's range. */
  lemma ReleaseWithoutNameHitsAnother()
    ensures var other := Range(4, 6, "other");
            var book := [Net("a", false, Cidr(0, 8), [], [other]), Net("b", false, Cidr(0, 8), [], [])];
            var (after, res) := AfterReserve(book, "b", 1, "me");
            && Inv(book) && res.Ok?
            && AfterRelease(after, "me", Some(res.value), None).1 == Ok(Some(other))
  {
    var other, r := Range(4, 6, "other"), Range(4, 5, "me");
    var a, b := Net("a", false, Cidr(0, 8), [], [other]), Net("b", false, Cidr(0, 8), [], []);
    var book := [a, b];
    TwoNetworks(a, b, other);
    EmptyGrants(b);
    assert book[1..] == [b];
    assert FindNet(book, "b") == 1;
    var after := AfterReserve(book, "b", 1, "me").0;
    assert AddReserved([], r) == Ok([r]) by { assert [] + [r] == [r]; }
    assert after[0] == a;
    RangeFirst([other], r, 0);
    StoppedAt(after, 0, "me", Some(r));
  }

  lemma TwoNetworks(a: Net, b: Net, other: Range)
    requires other == Range(4, 6, "other")
    requires a == Net("a", false, Cidr(0, 8), [], [other]) && b == Net("b", false, Cidr(0, 8), [], [])
    ensures a.Inv() && b.Inv()
  {
    assert Pools([other]) == [Pool(4, 6)];
  }

  lemma EmptyGrants(b: Net)
    requires b == Net("b", false, Cidr(0, 8), [], [])
    ensures RangeInCidr(b.cidr, b.Taken(), 1) == Ok(Pool(4, 5))
  {
    assert b.Taken() == [];
    var free := FreeRanges(b.cidr, []).value;
    assert free == [Pool(4, 6)];
    assert FirstFit(free, 1) == Some(Pool(4, 5));
  }

  // ------------------------------------------------------ releasing by owner

  /** The book with every range of the owner gone. */
  function Without(book: Book, owner: string): (out: Book)
    ensures |out| == |book|
    ensures forall i :: 0 <= i < |book| ==> out[i] == book[i].(reserved := Others(book[i].reserved, owner))
  {
    if book == [] then []
    else [book[0].(reserved := Others(book[0].reserved, owner))] + Without(book[1..], owner)
  }

  function TotalHeld(book: Book, owner: string): nat {
    if book == [] then 0 else Held(book[0].reserved, owner) + TotalHeld(book[1..], owner)
  }

  lemma {:induction false} TotalAfterUpdate(book: Book, k: nat, net: Net, owner: string)
    requires k < |book|
    ensures TotalHeld(book[k := net], owner)
            == TotalHeld(book, owner) - Held(book[k].reserved, owner) + Held(net.reserved, owner)
  {
    if k == 0 {
      assert book[k := net][1..] == book[1..];
    } else {
      TotalAfterUpdate(book[1..], k - 1, net, owner);
      assert book[k := net][1..] == book[1..][k - 1 := net];
    }
  }

  lemma {:induction false} HeldNowhere(book: Book, owner: string)
    ensures TotalHeld(book, owner) == 0 <==> forall i :: 0 <= i < |book| ==> Held(book[i].reserved, owner) == 0
  {
    if book != [] {
      HeldNowhere(book[1..], owner);
      assert forall i :: 0 < i < |book| ==> book[i] == book[1..][i - 1];
    }
  }

  /** One release by owner takes one range from somewhere, or finds none at all. */
  lemma {:induction false} OneFromSomewhere(book: Book, k: nat, owner: string)
    requires Inv(book) && k <= |book|
    requires forall i :: 0 <= i < k ==> Held(book[i].reserved, owner) == 0
    ensures var (after, res) := ReleasedFrom(book, k, owner, None);
            && res.Ok?
            && Inv(after)
            && Without(after, owner) == Without(book, owner)
            && (res.value.None? ==> after == book && TotalHeld(book, owner) == 0)
            && (res.value.Some? ==> TotalHeld(after, owner) == TotalHeld(book, owner) - 1)
    decreases |book| - k
  {
    if k == |book| {
      HeldNowhere(book, owner);
    } else {
      ReleaseByOwner(book[k], owner);
      ReleasedAtKeepsInv(book, k, owner, None);
      var (after, res) := ReleasedAt(book, k, owner, None);
      if res == Ok(None) {
        OneFromSomewhere(book, k + 1, owner);
      } else {
        TotalAfterUpdate(book, k, after[k], owner);
        assert Without(after, owner) == Without(book, owner);
      }
    }
  }

  /** release_ranges(owner) repeated until it finds nothing. */
  ghost function Drained(book: Book, owner: string): Book
    requires Inv(book)
    decreases TotalHeld(book, owner)
  {
    OneFromSomewhere(book, 0, owner);
    var (after, res) := AfterRelease(book, owner, None, None);
    if res == Ok(None) then book else Drained(after, owner)
  }

  /** It removes every range of the owner, and leaves those of the others as they were, in order. */
  lemma {:induction false} DrainRemovesAllOfOwner(book: Book, owner: string)
    requires Inv(book)
    ensures Drained(book, owner) == Without(book, owner)
    decreases TotalHeld(book, owner)
  {
    OneFromSomewhere(book, 0, owner);
    var (after, res) := AfterRelease(book, owner, None, None);
    if res == Ok(None) {
      HeldNowhere(book, owner);
      forall i | 0 <= i < |book| ensures book[i] == Without(book, owner)[i] {
        NobodyHolds(book[i].reserved, owner);
      }
    } else {
      DrainRemovesAllOfOwner(after, owner);
    }
  }

  /** One release by owner over all networks removes all ranges of the owner iff there is at most one. */
  lemma OneReleaseRemovesAll(book: Book, owner: string)
    requires Inv(book)
    ensures AfterRelease(book, owner, None, None).0 == Without(book, owner) <==> TotalHeld(book, owner) <= 1
  {
    OneFromSomewhere(book, 0, owner);
    var after := AfterRelease(book, owner, None, None).0;
    NothingToRemove(after, owner);
  }

  lemma NothingToRemove(book: Book, owner: string)
    ensures TotalHeld(book, owner) == 0 <==> Without(book, owner) == book
  {
    HeldNowhere(book, owner);
    forall i | 0 <= i < |book|
      ensures Held(book[i].reserved, owner) == 0 <==> Others(book[i].reserved, owner) == book[i].reserved
    {
      NobodyHolds(book[i].reserved, owner);
      OthersAreFewer(book[i].reserved, owner);
    }
  }

  lemma {:induction false} OthersAreFewer(rs: seq<Range>, owner: string)
    ensures |Others(rs, owner)| + Held(rs, owner) == |rs|
  {
    if rs != [] { OthersAreFewer(rs[1..], owner); }
  }
}
