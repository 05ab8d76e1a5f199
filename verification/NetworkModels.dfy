/** The reservation list of one network (src/nfvcl/models/network/network_models.py). */
module NetworkModels {
  import opened Wrappers
  import opened Seqs
  import opened Ipam

  /** IPv4ReservedRange. */
  datatype Range = Range(start: int, end: int, owner: string) {
    function Pool(): Pool { Ipam.Pool(start, end) }

    /** `this == other`: one end of this range lies in the other. It is not symmetric. */
    predicate Overlaps(other: Range) {
      other.start <= start <= other.end || other.start <= end <= other.end
    }

    /** What `in` and list.remove test, `this` being the list element: identity, then equality. */
    predicate Same(other: Range) { this == other || Overlaps(other) }
  }

  /** The value of a NetworkModel. */
  datatype Net = Net(name: string, external: bool, cidr: Cidr, pools: seq<Pool>, reserved: seq<Range>) {
    /** The ranges the allocator must avoid: those given to the VIM, then the reservations. */
    function Taken(): seq<Pool> { pools + Pools(reserved) }

    ghost predicate Inv() { Ipam.Inv(cidr, Taken()) }
  }

  function Pools(rs: seq<Range>): (ps: seq<Pool>)
    ensures |ps| == |rs| && forall i :: 0 <= i < |rs| ==> ps[i] == rs[i].Pool()
  {
    if rs == [] then [] else [rs[0].Pool()] + Pools(rs[1..])
  }

  /** The first index whose range passes the test, or the length. */
  function First(rs: seq<Range>, test: Range -> bool): (k: nat)
    ensures k <= |rs| && (k < |rs| ==> test(rs[k]))
    ensures forall i :: 0 <= i < k ==> !test(rs[i])
  {
    if rs == [] || test(rs[0]) then 0 else 1 + First(rs[1..], test)
  }

  /** list.remove(x). */
  function RemoveSame(rs: seq<Range>, x: Range): seq<Range> {
    var k := First(rs, (e: Range) => e.Same(x));
    if k < |rs| then RemoveAt(rs, k) else rs
  }

  /** r is a new object, so that `in` finds it only by equality. */
  function AddReserved(rs: seq<Range>, r: Range): Result<seq<Range>, IpError> {
    if First(rs, (e: Range) => e.Overlaps(r)) < |rs| then Err(Overlap) else Ok(rs + [r])
  }

  /** The list after release_range and what it returns. */
  function Released(rs: seq<Range>, owner: string, range: Option<Range>)
    : (seq<Range>, Result<Option<Range>, IpError>)
  {
    match range
    case None =>
      var k := First(rs, (e: Range) => e.owner == owner);
      if k == |rs| then (rs, Ok(None)) else (RemoveSame(rs, rs[k]), Ok(Some(rs[k])))
    case Some(r) =>
      if rs == [] then (rs, Ok(None))
      else if owner != r.owner then (rs, Err(WrongOwner))
      else
        var k := First(rs, (e: Range) => e.Overlaps(r));
        if k == |rs| then (rs, Ok(None)) else (RemoveSame(rs, rs[k]), Ok(Some(rs[k])))
  }

  /** The first range of the owner. */
  ghost predicate FirstOwned(rs: seq<Range>, owner: string, k: int) {
    0 <= k < |rs| && rs[k].owner == owner && forall i :: 0 <= i < k ==> rs[i].owner != owner
  }

  /** The first range that has one end between those of r. */
  ghost predicate FirstHit(rs: seq<Range>, r: Range, k: int) {
    && 0 <= k < |rs| && (r.start <= rs[k].start <= r.end || r.start <= rs[k].end <= r.end)
    && forall i :: 0 <= i < k ==> !(r.start <= rs[i].start <= r.end || r.start <= rs[i].end <= r.end)
  }

  /** The first range is gone that is x or has one end between those of x. */
  ghost predicate TakenOut(rs: seq<Range>, x: Range, after: seq<Range>) {
    exists m ::
      && 0 <= m < |rs| && after == rs[..m] + rs[m + 1..]
      && (rs[m] == x || x.start <= rs[m].start <= x.end || x.start <= rs[m].end <= x.end)
      && forall i :: 0 <= i < m ==>
                       rs[i] != x && !(x.start <= rs[i].start <= x.end || x.start <= rs[i].end <= x.end)
  }

  /** With a range given the owner must be its owner, if there is any reservation at all. */
  ghost predicate ReleaseMeans(rs: seq<Range>, owner: string, range: Option<Range>, after: seq<Range>,
                               res: Result<Option<Range>, IpError>) {
    if res.Err? then
      && res.error == WrongOwner && after == rs
      && rs != [] && range.Some? && range.value.owner != owner
    else if res.value.None? then
      && after == rs
      && match range
         case None => forall k :: !FirstOwned(rs, owner, k)
         case Some(r) => rs == [] || (r.owner == owner && forall k :: !FirstHit(rs, r, k))
    else
      && TakenOut(rs, res.value.value, after)
      && match range
         case None => exists k :: FirstOwned(rs, owner, k) && rs[k] == res.value.value
         case Some(r) => r.owner == owner && exists k :: FirstHit(rs, r, k) && rs[k] == res.value.value
  }

  lemma ReleasedMeans(rs: seq<Range>, owner: string, range: Option<Range>)
    ensures ReleaseMeans(rs, owner, range, Released(rs, owner, range).0, Released(rs, owner, range).1)
  {
    match range
    case None =>
      var k := First(rs, (e: Range) => e.owner == owner);
      if k < |rs| {
        assert FirstOwned(rs, owner, k);
        RemovedIsTakenOut(rs, k);
      }
    case Some(r) =>
      var k := First(rs, (e: Range) => e.Overlaps(r));
      if k < |rs| {
        assert rs[k].Overlaps(r) && forall i :: 0 <= i < k ==> !rs[i].Overlaps(r);
        assert FirstHit(rs, r, k);
        RemovedIsTakenOut(rs, k);
      } else {
        forall i ensures !FirstHit(rs, r, i) {
          if 0 <= i < |rs| { assert !rs[i].Overlaps(r); }
        }
      }
  }

  lemma RemovedIsTakenOut(rs: seq<Range>, k: nat)
    requires k < |rs|
    ensures TakenOut(rs, rs[k], RemoveSame(rs, rs[k]))
  {
    var x := rs[k];
    var m := First(rs, (e: Range) => e.Same(x));
    assert rs[k].Same(x);
    assert m <= k && rs[m].Same(x);
    assert RemoveSame(rs, x) == rs[..m] + rs[m + 1..];
    forall i | 0 <= i < m
      ensures rs[i] != x && !(x.start <= rs[i].start <= x.end || x.start <= rs[i].end <= x.end)
    {
      assert !rs[i].Same(x);
    }
  }

  class NetworkModel {
    const name: string
    const external: bool
    const cidr: Cidr
    var allocationPool: seq<Pool>
    var reservedRanges: seq<Range>

    constructor (name: string, external: bool, cidr: Cidr, allocationPool: seq<Pool>)
      ensures Value() == Net(name, external, cidr, allocationPool, [])
    {
      this.name, this.external, this.cidr := name, external, cidr;
      this.allocationPool, this.reservedRanges := allocationPool, [];
    }

    function Value(): Net
      reads this
    {
      Net(name, external, cidr, allocationPool, reservedRanges)
    }

    method FirstSame(r: Range) returns (k: nat)
      ensures k == First(reservedRanges, (e: Range) => e.Same(r))
    {
      k := 0;
      while k < |reservedRanges| && !reservedRanges[k].Same(r)
        invariant k <= |reservedRanges|
        invariant forall i :: 0 <= i < k ==> !reservedRanges[i].Same(r)
      {
        k := k + 1;
      }
    }

    method AddReservedRange(r: Range) returns (res: Result<(), IpError>)
      modifies this`reservedRanges
      ensures match AddReserved(old(reservedRanges), r)
              case Ok(rs) => res == Ok(()) && reservedRanges == rs
              case Err(e) => res == Err(e) && reservedRanges == old(reservedRanges)
    {
      var k := 0;
      while k < |reservedRanges| && !reservedRanges[k].Overlaps(r)
        invariant k <= |reservedRanges|
        invariant forall i :: 0 <= i < k ==> !reservedRanges[i].Overlaps(r)
      {
        k := k + 1;
      }
      if k < |reservedRanges| { return Err(Overlap); }
      reservedRanges := reservedRanges + [r];
      res := Ok(());
    }

    method Remove(x: Range)
      modifies this`reservedRanges
      ensures reservedRanges == RemoveSame(old(reservedRanges), x)
    {
      var k := FirstSame(x);
      if k < |reservedRanges| {
        reservedRanges := RemoveAt(reservedRanges, k);
      }
    }

    method ReleaseRange(owner: string, range: Option<Range>) returns (res: Result<Option<Range>, IpError>)
      modifies this`reservedRanges
      ensures ReleaseMeans(old(reservedRanges), owner, range, reservedRanges, res)
      ensures (reservedRanges, res) == Released(old(reservedRanges), owner, range)
    {
      hide ReleaseMeans;
      ghost var rs := reservedRanges;
      ReleasedMeans(rs, owner, range);
      var i := 0;
      while i < |reservedRanges|
        invariant i <= |reservedRanges| && reservedRanges == rs
        invariant range.None? ==> forall k :: 0 <= k < i ==> rs[k].owner != owner
        invariant range.Some? && i > 0 ==> owner == range.value.owner
        invariant range.Some? ==> forall k :: 0 <= k < i ==> !rs[k].Overlaps(range.value)
      {
        var reserved := reservedRanges[i];
        match range {
          case None =>
            if reserved.owner == owner {
              OwnerFirst(rs, owner, i);
              Remove(reserved);
              return Ok(Some(reserved));
            }
          case Some(r) =>
            if owner != r.owner { return Err(WrongOwner); }
            if reserved.Overlaps(r) {
              RangeFirst(rs, r, i);
              Remove(reserved);
              return Ok(Some(reserved));
            }
        }
        i := i + 1;
      }
      NothingFirst(rs, owner, range);
      res := Ok(None);
    }
  }

  lemma OwnerFirst(rs: seq<Range>, owner: string, i: nat)
    requires i < |rs| && rs[i].owner == owner && forall k :: 0 <= k < i ==> rs[k].owner != owner
    ensures Released(rs, owner, None) == (RemoveSame(rs, rs[i]), Ok(Some(rs[i])))
  {
  }

  lemma RangeFirst(rs: seq<Range>, r: Range, i: nat)
    requires i < |rs| && rs[i].Overlaps(r) && forall k :: 0 <= k < i ==> !rs[k].Overlaps(r)
    ensures Released(rs, r.owner, Some(r)) == (RemoveSame(rs, rs[i]), Ok(Some(rs[i])))
  {
  }

  lemma NothingFirst(rs: seq<Range>, owner: string, range: Option<Range>)
    requires range.None? ==> forall k :: 0 <= k < |rs| ==> rs[k].owner != owner
    requires range.Some? && rs != [] ==> owner == range.value.owner
    requires range.Some? ==> forall k :: 0 <= k < |rs| ==> !rs[k].Overlaps(range.value)
    ensures Released(rs, owner, range) == (rs, Ok(None))
  {
  }

  // ------------------------------------------------- one network under Inv

  lemma TakenAt(net: Net, i: nat)
    requires i < |net.reserved|
    ensures |net.pools| + i < |net.Taken()| && net.Taken()[|net.pools| + i] == net.reserved[i].Pool()
  {
  }

  /** Reservations of a network under Inv are pairwise apart, whoever holds them. */
  lemma ReservationsApart(net: Net, i: nat, j: nat)
    requires net.Inv() && i < |net.reserved| && j < |net.reserved| && i != j
    ensures Apart(net.reserved[i].Pool(), net.reserved[j].Pool())
    ensures !net.reserved[i].Same(net.reserved[j])
  {
    TakenAt(net, i);
    TakenAt(net, j);
    var a, b := |net.pools| + i, |net.pools| + j;
    assert Valid(net.cidr, net.Taken()[a]) && Valid(net.cidr, net.Taken()[b]);
    if i < j { assert Apart(net.Taken()[a], net.Taken()[b]); } else { assert Apart(net.Taken()[b], net.Taken()[a]); }
  }

  /** So list.remove of a reservation removes that one. */
  lemma RemovesItself(net: Net, k: nat)
    requires net.Inv() && k < |net.reserved|
    ensures RemoveSame(net.reserved, net.reserved[k]) == RemoveAt(net.reserved, k)
  {
    var rs := net.reserved;
    var m := First(rs, (e: Range) => e.Same(rs[k]));
    assert rs[k].Same(rs[k]);
    assert m <= k;
    if m != k { ReservationsApart(net, m, k); }
  }

  lemma DropKeepsInv(net: Net, k: nat)
    requires net.Inv() && k < |net.reserved|
    ensures net.(reserved := RemoveAt(net.reserved, k)).Inv()
  {
    var out := net.(reserved := RemoveAt(net.reserved, k));
    var t, u, n := net.Taken(), out.Taken(), |net.pools| + k;
    assert forall i :: 0 <= i < |u| ==> u[i] == t[if i < n then i else i + 1];
    DropOneKeepsInv(net.cidr, t, u, n);
  }

  lemma DropOneKeepsInv(cidr: Cidr, t: seq<Pool>, u: seq<Pool>, n: nat)
    requires Ipam.Inv(cidr, t) && |u| == |t| - 1 && n < |t|
    requires forall i :: 0 <= i < |u| ==> u[i] == t[if i < n then i else i + 1]
    ensures Ipam.Inv(cidr, u)
  {
    forall i | 0 <= i < |u| ensures Valid(cidr, u[i]) && Placed(cidr, u[i]) {
      var i' := if i < n then i else i + 1;
      assert u[i] == t[i'] && Valid(cidr, t[i']) && Placed(cidr, t[i']);
    }
    forall i, j | 0 <= i < j < |u| ensures Apart(u[i], u[j]) {
      var i', j' := if i < n then i else i + 1, if j < n then j else j + 1;
      assert u[i] == t[i'] && u[j] == t[j'] && Apart(t[i'], t[j']);
    }
  }

  /** A release keeps Inv: it drops at most one range. */
  lemma ReleaseKeepsInv(net: Net, owner: string, range: Option<Range>)
    requires net.Inv()
    ensures net.(reserved := Released(net.reserved, owner, range).0).Inv()
  {
    var rs, res := net.reserved, Released(net.reserved, owner, range);
    assert net.(reserved := net.reserved) == net;
    if res.1.Ok? && res.1.value.Some? {
      var k := match range
        case None => First(rs, (e: Range) => e.owner == owner)
        case Some(r) => First(rs, (e: Range) => e.Overlaps(r));
      RemovesItself(net, k);
      DropKeepsInv(net, k);
    }
  }

  /** A range lying in free addresses passes the overlap check, asymmetric as it is. */
  lemma FreeRangePasses(net: Net, r: Range)
    requires AllValid(net.cidr, net.Taken()) && r.start <= r.end
    requires forall x :: r.start <= x <= r.end ==> Free(net.cidr, net.Taken(), x)
    ensures AddReserved(net.reserved, r) == Ok(net.reserved + [r])
  {
    var rs := net.reserved;
    var k := First(rs, (e: Range) => e.Overlaps(r));
    if k < |rs| {
      TakenAt(net, k);
      assert Valid(net.cidr, net.Taken()[|net.pools| + k]);
      FreeIsApart(net.cidr, rs[k].Pool(), net.Taken(), r.Pool());
    }
  }

  /**
   * The overlap check lets a range pass iff each range there lies apart from it or strictly around
   * it: of two overlapping ranges those pass of which the new one is strictly inside.
   */
  lemma PassesExactlyWhen(rs: seq<Range>, r: Range)
    requires r.start <= r.end && forall i :: 0 <= i < |rs| ==> rs[i].start <= rs[i].end
    ensures AddReserved(rs, r).Ok? <==>
            forall i :: 0 <= i < |rs| ==>
                          Apart(rs[i].Pool(), r.Pool()) || (rs[i].start < r.start && r.end < rs[i].end)
  {
    forall i | 0 <= i < |rs|
      ensures rs[i].Overlaps(r) <==> !Apart(rs[i].Pool(), r.Pool()) && !(rs[i].start < r.start && r.end < rs[i].end)
    {
    }
    var k := First(rs, (e: Range) => e.Overlaps(r));
    if k == |rs| {
      forall i | 0 <= i < |rs| ensures !rs[i].Overlaps(r) { }
    }
  }

  /** Releasing a range just reserved by a passed check gives the list back. */
  lemma ReserveReleaseRestores(rs: seq<Range>, r: Range)
    requires AddReserved(rs, r).Ok? && r.start <= r.end
    ensures Released(rs + [r], r.owner, Some(r)) == (rs, Ok(Some(r)))
  {
    var after := rs + [r];
    var n := |rs|;
    assert after[n] == r && forall i :: 0 <= i < n ==> after[i] == rs[i];
    assert First(rs, (e: Range) => e.Overlaps(r)) == n;
    assert First(after, (e: Range) => e.Overlaps(r)) == n by { assert after[n].Overlaps(r); }
    assert First(after, (e: Range) => e.Same(r)) == n by {
      forall i | 0 <= i < n ensures !rs[i].Same(r) { assert !rs[i].Overlaps(r); }
    }
    assert after[..n] + after[n + 1..] == rs;
  }

  /** A range that ends before it starts is not found by its addresses, nor anything else. */
  lemma InvertedNotFound(rs: seq<Range>, r: Range)
    requires r.end < r.start
    ensures AddReserved(rs, r) == Ok(rs + [r])
    ensures Released(rs, r.owner, Some(r)) == (rs, Ok(None))
  {
  }

  /** The reservations of everybody but the owner, in order. */
  function Others(rs: seq<Range>, owner: string): seq<Range> {
    if rs == [] then []
    else (if rs[0].owner == owner then [] else [rs[0]]) + Others(rs[1..], owner)
  }

  function Held(rs: seq<Range>, owner: string): (n: nat)
    ensures n <= |rs|
  {
    if rs == [] then 0 else (if rs[0].owner == owner then 1 else 0) + Held(rs[1..], owner)
  }

  lemma {:induction false} DropsOneOf(rs: seq<Range>, owner: string, k: nat)
    requires k < |rs| && rs[k].owner == owner
    ensures Others(RemoveAt(rs, k), owner) == Others(rs, owner)
    ensures Held(RemoveAt(rs, k), owner) == Held(rs, owner) - 1
  {
    var out := RemoveAt(rs, k);
    if k == 0 {
      assert out == rs[1..];
    } else {
      var tail := rs[1..];
      DropsOneOf(tail, owner, k - 1);
      assert out[1..] == tail[..k - 1] + tail[k..];
      assert out[0] == rs[0];
    }
  }

  lemma {:induction false} NobodyHolds(rs: seq<Range>, owner: string)
    ensures Held(rs, owner) == 0 <==> forall i :: 0 <= i < |rs| ==> rs[i].owner != owner
    ensures Held(rs, owner) == 0 ==> Others(rs, owner) == rs
  {
    if rs != [] {
      NobodyHolds(rs[1..], owner);
      assert forall i :: 0 < i < |rs| ==> rs[i] == rs[1..][i - 1];
    }
  }

  /** A release by owner removes exactly one range of the owner, the first, and nobody else's. */
  lemma ReleaseByOwner(net: Net, owner: string)
    requires net.Inv()
    ensures var (rs, res) := Released(net.reserved, owner, None);
            && res.Ok?
            && Others(rs, owner) == Others(net.reserved, owner)
            && (res.value.None? <==> Held(net.reserved, owner) == 0)
            && (res.value.None? ==> rs == net.reserved)
            && (res.value.Some? ==> res.value.value.owner == owner
                                    && Held(rs, owner) == Held(net.reserved, owner) - 1)
  {
    var rs := net.reserved;
    var k := First(rs, (e: Range) => e.owner == owner);
    NobodyHolds(rs, owner);
    if k < |rs| {
      RemovesItself(net, k);
      DropsOneOf(rs, owner, k);
    }
  }
}
