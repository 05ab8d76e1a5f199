/** The IPv4 range allocator (src/nfvcl/utils/ipam.py). Addresses are integers. */
module Ipam {
  import opened Wrappers
  import opened Seqs

  /** A network: the addresses base .. base + size - 1. */
  datatype Cidr = Cidr(base: nat, size: nat) {
    predicate Contains(a: int) { base <= a < base + size }

    /** The first address the allocator may hand out, cidr[4]. */
    function Lo(): int { base + 4 }

    /** The last address the allocator may hand out, cidr[-2]. */
    function Hi(): int { base + size - 2 }

    /** Indexing the network with 4 and -2 raises IndexError on a network this small. */
    predicate HasWindow() { size > 4 }
  }

  datatype Pool = Pool(start: int, end: int)

  datatype IpError =
    | NoWindow       // IndexError from cidr[4] or cidr[-2]
    | BadRange       // the range starts after it ends, or leaves the network
    | NoRoom         // no free interval is long enough
    | Overlap        // the range is already in the reservation list
    | External       // reservations are refused on external networks
    | UnknownNetwork | UnknownVim
    | WrongOwner     // the range to release names another owner

  predicate Valid(cidr: Cidr, r: Pool) {
    r.start <= r.end && cidr.Contains(r.start) && cidr.Contains(r.end)
  }

  predicate AllValid(cidr: Cidr, rs: seq<Pool>) {
    forall i :: 0 <= i < |rs| ==> Valid(cidr, rs[i])
  }

  // ---------------------------------------------------------------- sorting

  function Insert(r: Pool, s: seq<Pool>): (t: seq<Pool>)
    ensures multiset(t) == multiset(s) + multiset{r}
  {
    if s == [] || r.start < s[0].start then
      assert s + [] == s;
      [r] + s
    else
      assert s == [s[0]] + s[1..];
      [s[0]] + Insert(r, s[1..])
  }

  /** Python's sorted(..., key=start): stable, by insertion from the left. */
  function SortByStart(rs: seq<Pool>): (t: seq<Pool>)
    ensures multiset(t) == multiset(rs)
  {
    if rs == [] then []
    else
      assert rs == rs[..|rs| - 1] + [rs[|rs| - 1]];
      Insert(rs[|rs| - 1], SortByStart(rs[..|rs| - 1]))
  }

  predicate Ordered(s: seq<Pool>) {
    forall i, j :: 0 <= i < j < |s| ==> s[i].start <= s[j].start
  }

  lemma InsertOrdered(r: Pool, s: seq<Pool>)
    requires Ordered(s)
    ensures Ordered(Insert(r, s))
  {
    if s == [] || r.start < s[0].start {
    } else {
      InsertOrdered(r, s[1..]);
      var t := Insert(r, s[1..]);
      forall k | 0 <= k < |t| ensures s[0].start <= t[k].start {
        assert t[k] in multiset(t);
        assert t[k] == r || t[k] in s[1..];
      }
    }
  }

  lemma SortOrdered(rs: seq<Pool>)
    ensures Ordered(SortByStart(rs))
  {
    if rs != [] {
      SortOrdered(rs[..|rs| - 1]);
      InsertOrdered(rs[|rs| - 1], SortByStart(rs[..|rs| - 1]));
    }
  }

  // ------------------------------------------------------------- free ranges

  /** What one reservation does to the free list whose last element is the open tail. */
  function Carve(avail: seq<Pool>, r: Pool): (out: seq<Pool>)
    requires avail != []
    ensures out != []
  {
    var front, tail := avail[..|avail| - 1], avail[|avail| - 1];
    if tail.end > r.start then
      front + (if r.start - 1 <= tail.start then [] else [Pool(tail.start, r.start - 1)])
      + [Pool(r.end + 1, tail.end)]
    else avail
  }

  function FreeAfter(cidr: Cidr, ordered: seq<Pool>): (out: seq<Pool>)
    ensures out != []
  {
    if ordered == [] then [Pool(cidr.Lo(), cidr.Hi())]
    else Carve(FreeAfter(cidr, ordered[..|ordered| - 1]), ordered[|ordered| - 1])
  }

  /** The specification of get_available_network_ip. */
  function FreeRanges(cidr: Cidr, reserved: seq<Pool>): Result<seq<Pool>, IpError> {
    if !cidr.HasWindow() then Err(NoWindow)
    else if !AllValid(cidr, reserved) then Err(BadRange)
    else Ok(FreeAfter(cidr, SortByStart(reserved)))
  }

  /** Every range but the tail ended just before some reservation already seen. */
  ghost predicate TailShaped(avail: seq<Pool>, seen: seq<Pool>, hi: int) {
    && avail != []
    && avail[|avail| - 1].end == hi
    && forall i :: 0 <= i < |avail| - 1 ==>
                     && avail[i].start < avail[i].end
                     && EndsBeforeOneOf(avail[i], seen)
  }

  ghost predicate EndsBeforeOneOf(p: Pool, seen: seq<Pool>) {
    exists j :: 0 <= j < |seen| && p.end == seen[j].start - 1
  }

  lemma {:induction false} FreeAfterShape(cidr: Cidr, ordered: seq<Pool>)
    ensures TailShaped(FreeAfter(cidr, ordered), ordered, cidr.Hi())
  {
    if ordered != [] {
      var n := |ordered| - 1;
      var before := FreeAfter(cidr, ordered[..n]);
      FreeAfterShape(cidr, ordered[..n]);
      var after := FreeAfter(cidr, ordered);
      forall i | 0 <= i < |after| - 1
        ensures after[i].start < after[i].end && EndsBeforeOneOf(after[i], ordered)
      {
        if i < |before| - 1 {
          assert after[i] == before[i];
          var j :| 0 <= j < n && before[i].end == ordered[..n][j].start - 1;
          assert ordered[j] == ordered[..n][j];
        } else {
          assert after[i].end == ordered[n].start - 1;
        }
      }
    }
  }

  /** The inner loop: the first range that ends after the reservation starts is cut around it. */
  method CutAround(avail: seq<Pool>, range: Pool) returns (out: seq<Pool>)
    requires avail != []
    requires forall i :: 0 <= i < |avail| - 1 ==> avail[i].start < avail[i].end < range.start
    ensures out == Carve(avail, range)
  {
    out := avail;
    var j := 0;
    while j < |out|
      invariant 0 <= j <= |out|
      invariant out == avail
      invariant forall k :: 0 <= k < j ==> avail[k].end <= range.start
    {
      if out[j].end > range.start {
        assert j == |avail| - 1;
        var originalEnd := out[j].end;
        var cut := Pool(out[j].start, range.start - 1);
        out := out[j := cut];
        assert out == avail[..j] + [cut];
        if cut.end <= cut.start {
          RemoveFirstAt(out, j);
          out := RemoveFirst(out, cut);
        }
        out := out + [Pool(range.end + 1, originalEnd)];
        return;
      }
      j := j + 1;
    }
    assert avail[|avail| - 1].end <= range.start;
  }

  method GetAvailableNetworkIp(cidr: Cidr, reserved: seq<Pool>) returns (r: Result<seq<Pool>, IpError>)
    ensures r == FreeRanges(cidr, reserved)
  {
    if !cidr.HasWindow() { return Err(NoWindow); }
    var available := [Pool(cidr.Lo(), cidr.Hi())];
    var ordered := SortByStart(reserved);
    SortOrdered(reserved);
    MultisetMembers(ordered, reserved);
    var i := 0;
    while i < |ordered|
      invariant 0 <= i <= |ordered|
      invariant forall k :: 0 <= k < i ==> Valid(cidr, ordered[k])
      invariant available == FreeAfter(cidr, ordered[..i])
    {
      var range := ordered[i];
      if range.end - range.start < 0 || !cidr.Contains(range.start) || !cidr.Contains(range.end) {
        assert range in reserved;
        return Err(BadRange);
      }
      ClosedRangesEndBefore(cidr, ordered, i);
      assert ordered[..i + 1][..i] == ordered[..i];
      available := CutAround(available, range);
      i := i + 1;
    }
    assert ordered[..i] == ordered;
    forall k | 0 <= k < |reserved| ensures Valid(cidr, reserved[k]) {
      assert reserved[k] in ordered;
    }
    r := Ok(available);
  }

  /** So, in sorted order, only the tail can be cut. */
  lemma ClosedRangesEndBefore(cidr: Cidr, ordered: seq<Pool>, n: nat)
    requires n < |ordered| && Ordered(ordered)
    ensures var f := FreeAfter(cidr, ordered[..n]);
            forall i :: 0 <= i < |f| - 1 ==> f[i].start < f[i].end < ordered[n].start
  {
    FreeAfterShape(cidr, ordered[..n]);
    var f := FreeAfter(cidr, ordered[..n]);
    forall i | 0 <= i < |f| - 1 ensures f[i].end < ordered[n].start {
      var k :| 0 <= k < n && f[i].end == ordered[..n][k].start - 1;
      assert ordered[k].start <= ordered[n].start;
    }
  }

  // -------------------------------------------------- what the free list means

  ghost predicate Reserved(rs: seq<Pool>, x: int) {
    exists i :: 0 <= i < |rs| && rs[i].start <= x <= rs[i].end
  }

  ghost predicate StartsAt(rs: seq<Pool>, x: int) {
    exists i :: 0 <= i < |rs| && rs[i].start == x
  }

  ghost predicate Covered(avail: seq<Pool>, x: int) {
    exists i :: 0 <= i < |avail| && avail[i].start <= x <= avail[i].end
  }

  ghost predicate Free(cidr: Cidr, rs: seq<Pool>, x: int) {
    cidr.Lo() <= x <= cidr.Hi() && !Reserved(rs, x)
  }

  /** A free address alone between a reservation (or the start of the window) and the next one. */
  ghost predicate LoneGap(cidr: Cidr, rs: seq<Pool>, x: int) {
    && Free(cidr, rs, x)
    && x < cidr.Hi()
    && StartsAt(rs, x + 1)
    && (x == cidr.Lo() || Reserved(rs, x - 1))
  }

  predicate Apart(p: Pool, q: Pool) { p.end < q.start || q.end < p.start }

  predicate PairwiseApart(rs: seq<Pool>) {
    forall i, j :: 0 <= i < j < |rs| ==> Apart(rs[i], rs[j])
  }

  /** The range ends no earlier than cidr[3] and does not start at cidr[-2]. */
  predicate Placed(cidr: Cidr, r: Pool) {
    r.end >= cidr.base + 3 && r.start != cidr.Hi()
  }

  /** The condition under which the allocator is exact. */
  predicate Inv(cidr: Cidr, rs: seq<Pool>) {
    && AllValid(cidr, rs)
    && PairwiseApart(rs)
    && forall i :: 0 <= i < |rs| ==> Placed(cidr, rs[i])
  }

  /** Sorting keeps Inv and the reserved addresses. */
  lemma SortKeeps(cidr: Cidr, rs: seq<Pool>)
    requires AllValid(cidr, rs) && PairwiseApart(rs)
    ensures AllValid(cidr, SortByStart(rs)) && PairwiseApart(SortByStart(rs))
    ensures forall x :: x in SortByStart(rs) <==> x in rs
    ensures forall x :: Reserved(SortByStart(rs), x) <==> Reserved(rs, x)
    ensures forall x :: StartsAt(SortByStart(rs), x) <==> StartsAt(rs, x)
  {
    var t := SortByStart(rs);
    MultisetMembers(t, rs);
    forall i | 0 <= i < |t| ensures Valid(cidr, t[i]) { assert t[i] in rs; }
    forall x ensures Reserved(t, x) <==> Reserved(rs, x) {
      ReservedBySome(t, x); ReservedBySome(rs, x);
    }
    forall x ensures StartsAt(t, x) <==> StartsAt(rs, x) {
      if StartsAt(t, x) { var i :| 0 <= i < |t| && t[i].start == x; assert t[i] in rs; }
      if StartsAt(rs, x) { var i :| 0 <= i < |rs| && rs[i].start == x; assert rs[i] in t; }
    }
    SortApart(cidr, rs);
  }

  lemma MultisetMembers(s: seq<Pool>, t: seq<Pool>)
    requires multiset(s) == multiset(t)
    ensures forall x :: x in s <==> x in t
  {
    forall x ensures x in s <==> x in t { assert x in s <==> x in multiset(s); }
  }

  lemma ReservedBySome(rs: seq<Pool>, x: int)
    ensures Reserved(rs, x) <==> exists r :: r in rs && r.start <= x <= r.end
  {
    if Reserved(rs, x) { var i :| 0 <= i < |rs| && rs[i].start <= x <= rs[i].end; assert rs[i] in rs; }
  }

  lemma InsertApart(r: Pool, s: seq<Pool>)
    requires PairwiseApart(s) && forall i :: 0 <= i < |s| ==> Apart(r, s[i])
    ensures PairwiseApart(Insert(r, s))
  {
    if s == [] || r.start < s[0].start {
    } else {
      InsertApart(r, s[1..]);
      var t := Insert(r, s[1..]);
      forall k | 0 <= k < |t| ensures Apart(s[0], t[k]) {
        assert t[k] in multiset(t);
        assert t[k] == r || t[k] in s[1..];
      }
    }
  }

  lemma SortApart(cidr: Cidr, rs: seq<Pool>)
    requires PairwiseApart(rs)
    ensures PairwiseApart(SortByStart(rs))
  {
    if rs != [] {
      var n := |rs| - 1;
      SortApart(cidr, rs[..n]);
      var s := SortByStart(rs[..n]);
      MultisetMembers(s, rs[..n]);
      forall i | 0 <= i < |s| ensures Apart(rs[n], s[i]) { assert s[i] in rs[..n]; }
      InsertApart(rs[n], s);
    }
  }

  // ------------------------------------------------ exactness of the free list

  /** The open tail, and the ranges closed before it. */
  ghost function Tail(cidr: Cidr, ordered: seq<Pool>): int {
    var f := FreeAfter(cidr, ordered);
    f[|f| - 1].start
  }

  ghost function Closed(cidr: Cidr, ordered: seq<Pool>): seq<Pool> {
    var f := FreeAfter(cidr, ordered);
    f[..|f| - 1]
  }

  ghost predicate EndsAt(rs: seq<Pool>, x: int) {
    exists i :: 0 <= i < |rs| && rs[i].end == x
  }

  /** The range left between the tail start t and a reservation from start on, if any. */
  ghost function Gap(t: int, start: int): seq<Pool> {
    if start - 1 <= t then [] else [Pool(t, start - 1)]
  }

  lemma Unfold(cidr: Cidr, q: seq<Pool>, r: Pool)
    ensures r.start < cidr.Hi() ==>
              && Closed(cidr, q + [r]) == Closed(cidr, q) + Gap(Tail(cidr, q), r.start)
              && Tail(cidr, q + [r]) == r.end + 1
    ensures r.start >= cidr.Hi() ==>
              && Closed(cidr, q + [r]) == Closed(cidr, q)
              && Tail(cidr, q + [r]) == Tail(cidr, q)
  {
    FreeAfterShape(cidr, q);
    assert (q + [r])[..|q|] == q;
  }

  /** A prefix of ordered reservations satisfying Inv, and what its last element adds. */
  lemma Prefix(cidr: Cidr, p: seq<Pool>) returns (q: seq<Pool>, r: Pool)
    requires p != [] && Inv(cidr, p) && Ordered(p)
    ensures p == q + [r] && Inv(cidr, q) && Ordered(q) && Valid(cidr, r) && Placed(cidr, r)
    ensures forall i :: 0 <= i < |q| ==> q[i].end < r.start
  {
    var n := |p| - 1;
    q, r := p[..n], p[n];
    forall i | 0 <= i < n ensures q[i].end < r.start {
      assert p[i].start <= p[n].start && Apart(p[i], p[n]) && Valid(cidr, p[i]);
    }
  }

  /** Where the tail stands: behind every reservation met so far. */
  lemma {:induction false} TailBehind(cidr: Cidr, p: seq<Pool>)
    requires cidr.HasWindow() && Inv(cidr, p) && Ordered(p)
    ensures Tail(cidr, p) >= cidr.Lo()
    ensures Tail(cidr, p) == cidr.Lo() || EndsAt(p, Tail(cidr, p) - 1)
    ensures forall i :: 0 <= i < |p| && p[i].start < cidr.Hi() ==> p[i].end < Tail(cidr, p)
    decreases |p|
  {
    if p != [] {
      var q, r := Prefix(cidr, p);
      TailBehind(cidr, q);
      Unfold(cidr, q, r);
      assert forall i :: 0 <= i < |q| ==> p[i] == q[i];
      if r.start < cidr.Hi() {
        assert p[|q|].end == Tail(cidr, p) - 1;
      } else if Tail(cidr, q) != cidr.Lo() {
        var i :| 0 <= i < |q| && q[i].end == Tail(cidr, q) - 1;
        assert p[i].end == Tail(cidr, p) - 1;
      }
    }
  }

  /** The closed ranges lie in order in the window, each right before a reservation. */
  ghost predicate InOrder(cidr: Cidr, c: seq<Pool>, t: int, p: seq<Pool>) {
    && (forall i :: 0 <= i < |c| ==> cidr.Lo() <= c[i].start < c[i].end < t && c[i].end < cidr.Hi())
    && (forall i :: 0 <= i < |c| ==> StartsAt(p, c[i].end + 1))
    && (forall i, j :: 0 <= i < j < |c| ==> c[i].end < c[j].start)
  }

  lemma TailBefore(cidr: Cidr, q: seq<Pool>, t: int, x: int)
    requires (t == cidr.Lo() || EndsAt(q, t - 1)) && forall i :: 0 <= i < |q| ==> q[i].end < x
    ensures t == cidr.Lo() || t <= x
  {
  }

  lemma {:induction false} ClosedInOrder(cidr: Cidr, p: seq<Pool>)
    requires cidr.HasWindow() && Inv(cidr, p) && Ordered(p)
    ensures InOrder(cidr, Closed(cidr, p), Tail(cidr, p), p)
    decreases |p|
  {
    if p != [] {
      var q, r := Prefix(cidr, p);
      var c, t := Closed(cidr, q), Tail(cidr, q);
      ClosedInOrder(cidr, q);
      TailBehind(cidr, q);
      TailBefore(cidr, q, t, r.start);
      Unfold(cidr, q, r);
      if r.start >= cidr.Hi() {
        InOrderGrows(cidr, c, t, q, r, [], t);
        assert c + [] == c;
      } else {
        InOrderGrows(cidr, c, t, q, r, Gap(t, r.start), r.end + 1);
      }
    }
  }

  lemma InOrderGrows(cidr: Cidr, c: seq<Pool>, t: int, q: seq<Pool>, r: Pool, gap: seq<Pool>, t': int)
    requires InOrder(cidr, c, t, q) && t <= t'
    requires gap != [] ==> gap == [Pool(t, r.start - 1)] && cidr.Lo() <= t < r.start - 1
    requires gap != [] ==> r.start <= t' && r.start <= cidr.Hi()
    ensures InOrder(cidr, c + gap, t', q + [r])
  {
    ReservedGrows(q, r, r.start);
    forall i | 0 <= i < |c| ensures StartsAt(q + [r], c[i].end + 1) { ReservedGrows(q, r, c[i].end + 1); }
  }

  lemma ReservedGrows(q: seq<Pool>, r: Pool, x: int)
    ensures Reserved(q + [r], x) <==> Reserved(q, x) || r.start <= x <= r.end
    ensures StartsAt(q + [r], x) <==> StartsAt(q, x) || r.start == x
  {
    var p := q + [r];
    assert p[|q|] == r;
    if Reserved(q, x) { var i :| 0 <= i < |q| && q[i].start <= x <= q[i].end; assert p[i] == q[i]; }
    if StartsAt(q, x) { var i :| 0 <= i < |q| && q[i].start == x; assert p[i] == q[i]; }
  }

  /** No reservation reaches from the tail onwards into the window. */
  lemma NothingBeyondTail(cidr: Cidr, p: seq<Pool>, x: int)
    requires cidr.HasWindow() && Inv(cidr, p) && Ordered(p)
    requires Tail(cidr, p) <= x <= cidr.Hi()
    ensures Free(cidr, p, x) && !StartsAt(p, x) && !LoneGap(cidr, p, x)
  {
    TailBehind(cidr, p);
  }

  /** The closed ranges cover the part of the window before the tail, lone gaps apart. */
  lemma {:induction false} ClosedExact(cidr: Cidr, p: seq<Pool>, x: int)
    requires cidr.HasWindow() && Inv(cidr, p) && Ordered(p)
    requires cidr.Lo() <= x < Tail(cidr, p) && x <= cidr.Hi()
    ensures Covered(Closed(cidr, p), x) <==> Free(cidr, p, x) && !LoneGap(cidr, p, x)
    decreases |p|
  {
    if p != [] {
      var q, r := Prefix(cidr, p);
      Unfold(cidr, q, r);
      if r.start > cidr.Hi() {
        ClosedExact(cidr, q, x);
        BeyondWindow(cidr, q, r, x);
      } else if x < Tail(cidr, q) {
        ClosedExact(cidr, q, x);
        BeforeTail(cidr, q, r, x);
      } else {
        InTheGap(cidr, q, r, x);
      }
    }
  }

  /** A reservation that starts after the window changes nothing in it. */
  lemma BeyondWindow(cidr: Cidr, q: seq<Pool>, r: Pool, x: int)
    requires r.start > cidr.Hi() >= x
    ensures Covered(Closed(cidr, q + [r]), x) <==> Covered(Closed(cidr, q), x)
    ensures Free(cidr, q + [r], x) <==> Free(cidr, q, x)
    ensures LoneGap(cidr, q + [r], x) <==> LoneGap(cidr, q, x)
  {
    Unfold(cidr, q, r);
    ReservedGrows(q, r, x);
    ReservedGrows(q, r, x - 1);
    ReservedGrows(q, r, x + 1);
  }

  /** A reservation behind the tail changes nothing before the tail. */
  lemma BeforeTail(cidr: Cidr, q: seq<Pool>, r: Pool, x: int)
    requires cidr.HasWindow() && Inv(cidr, q) && Ordered(q) && Placed(cidr, r) && r.start < cidr.Hi()
    requires forall i :: 0 <= i < |q| ==> q[i].end < r.start
    requires cidr.Lo() <= x < Tail(cidr, q) && x <= cidr.Hi()
    ensures Covered(Closed(cidr, q + [r]), x) <==> Covered(Closed(cidr, q), x)
    ensures Free(cidr, q + [r], x) <==> Free(cidr, q, x)
    ensures LoneGap(cidr, q + [r], x) <==> LoneGap(cidr, q, x)
  {
    TailBehind(cidr, q);
    Unfold(cidr, q, r);
    ReservedGrows(q, r, x);
    ReservedGrows(q, r, x - 1);
    ReservedGrows(q, r, x + 1);
    CoveredGrows(Closed(cidr, q), Gap(Tail(cidr, q), r.start), x);
    var i :| 0 <= i < |q| && q[i].end == Tail(cidr, q) - 1;
    if r.start == x + 1 { assert q[i].start <= x <= q[i].end by { assert Valid(cidr, q[i]); } }
  }

  /** From the tail to the reservation's end: the gap is kept iff it has two addresses. */
  lemma InTheGap(cidr: Cidr, q: seq<Pool>, r: Pool, x: int)
    requires cidr.HasWindow() && Inv(cidr, q) && Ordered(q) && Valid(cidr, r) && r.start < cidr.Hi()
    requires Tail(cidr, q) <= x <= cidr.Hi() && x <= r.end
    ensures Covered(Closed(cidr, q + [r]), x) <==> Free(cidr, q + [r], x) && !LoneGap(cidr, q + [r], x)
  {
    Unfold(cidr, q, r);
    ReservedGrows(q, r, x);
    ReservedGrows(q, r, x - 1);
    ReservedGrows(q, r, x + 1);
    CoveredGrows(Closed(cidr, q), Gap(Tail(cidr, q), r.start), x);
    NothingBeyondTail(cidr, q, x);
    AroundTail(cidr, q, x);
  }

  lemma AroundTail(cidr: Cidr, q: seq<Pool>, x: int)
    requires cidr.HasWindow() && Inv(cidr, q) && Ordered(q)
    requires Tail(cidr, q) <= x <= cidr.Hi()
    ensures !Covered(Closed(cidr, q), x)
    ensures x < cidr.Hi() ==> !StartsAt(q, x + 1)
    ensures x > Tail(cidr, q) ==> !Reserved(q, x - 1) && x > cidr.Lo()
    ensures x == Tail(cidr, q) ==> x == cidr.Lo() || Reserved(q, x - 1)
  {
    TailBehind(cidr, q);
    ClosedInOrder(cidr, q);
    if x < cidr.Hi() { NothingBeyondTail(cidr, q, x + 1); }
    if x > Tail(cidr, q) { NothingBeyondTail(cidr, q, x - 1); }
    if x == Tail(cidr, q) != cidr.Lo() {
      var i :| 0 <= i < |q| && q[i].end == x - 1;
      assert q[i].start <= x - 1 by { assert Valid(cidr, q[i]); }
    }
  }

  lemma CoveredGrows(c: seq<Pool>, gap: seq<Pool>, x: int)
    requires |gap| <= 1
    ensures Covered(c + gap, x) <==> Covered(c, x) || (gap != [] && gap[0].start <= x <= gap[0].end)
  {
    var d := c + gap;
    if Covered(c, x) { var i :| 0 <= i < |c| && c[i].start <= x <= c[i].end; assert d[i] == c[i]; }
    if gap != [] { assert d[|c|] == gap[0]; }
  }

  /** Under Inv the list does not fail, its ranges come in order inside the window, and every range
      but the last, which ends the window, stops right before a reservation. */
  lemma FreeListInOrder(cidr: Cidr, rs: seq<Pool>)
    requires cidr.HasWindow() && Inv(cidr, rs)
    ensures FreeRanges(cidr, rs).Ok?
    ensures var f := FreeRanges(cidr, rs).value;
            && f != [] && f[|f| - 1].end == cidr.Hi()
            && (forall i :: 0 <= i < |f| ==> f[i].start >= cidr.Lo() && f[i].end <= cidr.Hi())
            && (forall i, j :: 0 <= i < j < |f| ==> f[i].start < f[i].end < f[j].start)
            && (forall i :: 0 <= i < |f| - 1 ==> StartsAt(rs, f[i].end + 1))
  {
    var p := SortByStart(rs);
    SortInv(cidr, rs);
    TailBehind(cidr, p);
    ClosedInOrder(cidr, p);
    FreeAfterShape(cidr, p);
    var f := FreeAfter(cidr, p);
    assert f == Closed(cidr, p) + [f[|f| - 1]];
    WithTail(cidr, Closed(cidr, p), f[|f| - 1], p);
  }

  lemma WithTail(cidr: Cidr, c: seq<Pool>, tail: Pool, p: seq<Pool>)
    requires InOrder(cidr, c, tail.start, p) && tail.start >= cidr.Lo() && tail.end == cidr.Hi()
    ensures var f := c + [tail];
            && (forall i :: 0 <= i < |f| ==> f[i].start >= cidr.Lo() && f[i].end <= cidr.Hi())
            && (forall i, j :: 0 <= i < j < |f| ==> f[i].start < f[i].end < f[j].start)
            && (forall i :: 0 <= i < |f| - 1 ==> StartsAt(p, f[i].end + 1))
  {
  }

  lemma SortInv(cidr: Cidr, rs: seq<Pool>)
    requires Inv(cidr, rs)
    ensures Inv(cidr, SortByStart(rs)) && Ordered(SortByStart(rs))
    ensures forall x :: Reserved(SortByStart(rs), x) <==> Reserved(rs, x)
    ensures forall x :: StartsAt(SortByStart(rs), x) <==> StartsAt(rs, x)
  {
    var p := SortByStart(rs);
    SortOrdered(rs);
    SortKeeps(cidr, rs);
    forall i | 0 <= i < |p| ensures Placed(cidr, p[i]) { assert p[i] in rs; }
  }

  /** Covered, split into the closed ranges and the tail. */
  lemma CoveredSplit(cidr: Cidr, p: seq<Pool>, x: int)
    ensures Covered(FreeAfter(cidr, p), x) <==>
            Covered(Closed(cidr, p), x) || Tail(cidr, p) <= x <= cidr.Hi()
  {
    FreeAfterShape(cidr, p);
    var f := FreeAfter(cidr, p);
    assert f == Closed(cidr, p) + [f[|f| - 1]];
    CoveredGrows(Closed(cidr, p), [f[|f| - 1]], x);
  }

  lemma OrderedExact(cidr: Cidr, p: seq<Pool>, x: int)
    requires cidr.HasWindow() && Inv(cidr, p) && Ordered(p)
    ensures Covered(FreeAfter(cidr, p), x) <==> Free(cidr, p, x) && !LoneGap(cidr, p, x)
  {
    CoveredSplit(cidr, p, x);
    TailBehind(cidr, p);
    ClosedInOrder(cidr, p);
    if cidr.Lo() <= x <= cidr.Hi() {
      if x < Tail(cidr, p) { ClosedExact(cidr, p, x); } else { NothingBeyondTail(cidr, p, x); }
    }
  }

  /**
   * Under Inv the free list is exact: an address is covered iff it is free and not a
   * one-address gap before a reservation.
   */
  lemma FreeListExact(cidr: Cidr, rs: seq<Pool>, x: int)
    requires cidr.HasWindow() && Inv(cidr, rs)
    ensures FreeRanges(cidr, rs).Ok?
    ensures Covered(FreeRanges(cidr, rs).value, x) <==> Free(cidr, rs, x) && !LoneGap(cidr, rs, x)
  {
    SortInv(cidr, rs);
    OrderedExact(cidr, SortByStart(rs), x);
  }

  // --------------------------------------------------------------- first fit

  function FirstFit(avail: seq<Pool>, length: int): Option<Pool> {
    if avail == [] then None
    else if avail[0].end - avail[0].start >= length then Some(Pool(avail[0].start, avail[0].start + length))
    else FirstFit(avail[1..], length)
  }

  /** The specification of get_range_in_cidr. */
  function RangeInCidr(cidr: Cidr, reserved: seq<Pool>, length: int): Result<Pool, IpError> {
    match FreeRanges(cidr, reserved)
    case Err(e) => Err(e)
    case Ok(avail) =>
      match FirstFit(avail, length)
      case None => Err(NoRoom)
      case Some(p) => Ok(p)
  }

  method GetRangeInCidr(cidr: Cidr, reserved: seq<Pool>, length: int) returns (r: Result<Pool, IpError>)
    ensures r == RangeInCidr(cidr, reserved, length)
  {
    var found := GetAvailableNetworkIp(cidr, reserved);
    if found.Err? { return Err(found.error); }
    var avail := found.value;
    var i := 0;
    while i < |avail|
      invariant 0 <= i <= |avail|
      invariant FirstFit(avail, length) == FirstFit(avail[i..], length)
    {
      if avail[i].end - avail[i].start >= length {
        return Ok(Pool(avail[i].start, avail[i].start + length));
      }
      assert avail[i..][1..] == avail[i + 1..];
      i := i + 1;
    }
    r := Err(NoRoom);
  }

  /** The length + 1 addresses from a on are all free. */
  ghost predicate FreeRun(cidr: Cidr, rs: seq<Pool>, a: int, length: int) {
    forall x :: a <= x <= a + length ==> Free(cidr, rs, x)
  }

  lemma {:induction false} FirstFitIs(avail: seq<Pool>, length: int) returns (k: nat)
    ensures k <= |avail|
    ensures forall i :: 0 <= i < k ==> avail[i].end - avail[i].start < length
    ensures FirstFit(avail, length).None? <==> k == |avail|
    ensures k < |avail| ==> avail[k].end - avail[k].start >= length
                            && FirstFit(avail, length) == Some(Pool(avail[k].start, avail[k].start + length))
  {
    if avail == [] || avail[0].end - avail[0].start >= length {
      k := 0;
    } else {
      var n := FirstFitIs(avail[1..], length);
      forall i | 0 <= i < n + 1 ensures avail[i].end - avail[i].start < length {
        if i > 0 { assert avail[i] == avail[1..][i - 1]; }
      }
      k := n + 1;
    }
  }

  lemma StartsAreReserved(cidr: Cidr, rs: seq<Pool>, x: int)
    requires AllValid(cidr, rs)
    ensures StartsAt(rs, x) ==> Reserved(rs, x)
  {
    if StartsAt(rs, x) {
      var k :| 0 <= k < |rs| && rs[k].start == x;
      assert rs[k].start <= x <= rs[k].end by { assert Valid(cidr, rs[k]); }
    }
  }

  /** A run of two or more free addresses lies inside one range of the free list. */
  lemma RunInOneRange(cidr: Cidr, rs: seq<Pool>, f: seq<Pool>, b: int, length: int) returns (i: nat)
    requires cidr.HasWindow() && Inv(cidr, rs) && length >= 1 && FreeRun(cidr, rs, b, length)
    requires FreeRanges(cidr, rs) == Ok(f)
    ensures i < |f| && f[i].start <= b && b + length <= f[i].end
  {
    assert Free(cidr, rs, b) && Free(cidr, rs, b + 1) && Free(cidr, rs, b + length);
    StartsAreReserved(cidr, rs, b + 1);
    FreeListExact(cidr, rs, b);
    FreeListInOrder(cidr, rs);
    i :| 0 <= i < |f| && f[i].start <= b <= f[i].end;
    var x := f[i].end + 1;
    StartsAreReserved(cidr, rs, x);
    assert x <= b + length ==> Free(cidr, rs, x);
  }

  /**
   * First-fit completeness: under Inv, and for length >= 1, the allocator returns the lowest run
   * of length + 1 free addresses, and raises exactly when there is none.
   */
  lemma AllocatesLowestRun(cidr: Cidr, rs: seq<Pool>, length: int)
    requires cidr.HasWindow() && Inv(cidr, rs) && length >= 1
    ensures match RangeInCidr(cidr, rs, length)
            case Ok(p) =>
              && p.end == p.start + length
              && FreeRun(cidr, rs, p.start, length)
              && (forall b :: FreeRun(cidr, rs, b, length) ==> p.start <= b)
            case Err(e) =>
              && e == NoRoom
              && (forall b :: !FreeRun(cidr, rs, b, length))
  {
    FreeListInOrder(cidr, rs);
    var f := FreeRanges(cidr, rs).value;
    var k := FirstFitIs(f, length);
    forall b | FreeRun(cidr, rs, b, length) ensures k < |f| && f[k].start <= b {
      var i := RunInOneRange(cidr, rs, f, b, length);
    }
    if k < |f| {
      forall x | f[k].start <= x <= f[k].start + length ensures Free(cidr, rs, x) {
        assert Covered(f, x);
        FreeListExact(cidr, rs, x);
      }
    }
  }

  lemma FreeIsApart(cidr: Cidr, r: Pool, rs: seq<Pool>, p: Pool)
    requires Valid(cidr, r) && r in rs && p.start <= p.end
    requires forall x :: p.start <= x <= p.end ==> Free(cidr, rs, x)
    ensures Apart(r, p)
  {
    var i :| 0 <= i < |rs| && rs[i] == r;
    var x := if r.start < p.start then p.start else r.start;
    assert p.start <= x <= p.end ==> Free(cidr, rs, x);
    assert rs[i].start <= x <= rs[i].end ==> Reserved(rs, x);
  }

  /** An address that the free list offers, by FreeListExact. */
  ghost predicate Offered(cidr: Cidr, rs: seq<Pool>, x: int) {
    Free(cidr, rs, x) && !LoneGap(cidr, rs, x)
  }

  /** For length 0 the allocator returns the lowest address offered, and raises exactly when there is none. */
  lemma AllocatesLowestAddress(cidr: Cidr, rs: seq<Pool>)
    requires cidr.HasWindow() && Inv(cidr, rs)
    ensures match RangeInCidr(cidr, rs, 0)
            case Ok(p) =>
              && p.end == p.start && Offered(cidr, rs, p.start)
              && (forall x :: Offered(cidr, rs, x) ==> p.start <= x)
            case Err(e) => e == NoRoom && forall x :: !Offered(cidr, rs, x)
  {
    FreeListInOrder(cidr, rs);
    var f := FreeRanges(cidr, rs).value;
    var k := FirstFitIs(f, 0);
    forall x | Offered(cidr, rs, x) ensures k < |f| && f[k].start <= x {
      FreeListExact(cidr, rs, x);
      var i :| 0 <= i < |f| && f[i].start <= x <= f[i].end;
    }
    if k < |f| {
      FreeListExact(cidr, rs, f[k].start);
      assert Covered(f, f[k].start);
    }
  }

  /** A reservation that the tail stands behind although it ends on the last address of the network. */
  ghost predicate ReachesEnd(cidr: Cidr, rs: seq<Pool>) {
    exists i :: 0 <= i < |rs| && rs[i].start < cidr.Hi() && rs[i].end == cidr.Hi() + 1
  }

  /**
   * For a negative length the range returned ends before it starts, even when nothing is free; only
   * for length -1, with nothing offered and the network reserved to its end, does it raise.
   */
  lemma NegativeLength(cidr: Cidr, rs: seq<Pool>, length: int)
    requires cidr.HasWindow() && Inv(cidr, rs) && length < 0
    ensures match RangeInCidr(cidr, rs, length)
            case Ok(p) => p.end == p.start + length < p.start
            case Err(e) => e == NoRoom
    ensures RangeInCidr(cidr, rs, length).Err? <==>
            length == -1 && ReachesEnd(cidr, rs) && forall x :: !Offered(cidr, rs, x)
  {
    var f := NegativeFitIn(cidr, rs, length);
    NothingOffered(cidr, rs, f);
  }

  /** Nothing is offered iff the free list is the tail alone and that starts beyond the window. */
  /** A range before the last always fits, so only a single range can be too short. */
  lemma NegativeFit(f: seq<Pool>, length: int)
    requires f != [] && length < 0 && forall i :: 0 <= i < |f| - 1 ==> f[i].start < f[i].end
    ensures FirstFit(f, length) == None <==> |f| == 1 && f[0].end - f[0].start < length
    ensures FirstFit(f, length).Some? ==>
              FirstFit(f, length).value.end == FirstFit(f, length).value.start + length
  {
    var k := FirstFitIs(f, length);
  }

  lemma NegativeFitIn(cidr: Cidr, rs: seq<Pool>, length: int) returns (f: seq<Pool>)
    requires cidr.HasWindow() && Inv(cidr, rs) && length < 0
    ensures FreeRanges(cidr, rs) == Ok(f) && f != []
    ensures FirstFit(f, length) == None <==>
            length == -1 && |f| == 1 && f[0].start > cidr.Hi() && ReachesEnd(cidr, rs)
    ensures FirstFit(f, length).Some? ==>
              FirstFit(f, length).value.end == FirstFit(f, length).value.start + length
  {
    FreeListInOrder(cidr, rs);
    f := FreeRanges(cidr, rs).value;
    NegativeFit(f, length);
    TailReaches(cidr, rs);
    LastIsTail(cidr, rs, f);
  }

  lemma LastIsTail(cidr: Cidr, rs: seq<Pool>, f: seq<Pool>)
    requires cidr.HasWindow() && FreeRanges(cidr, rs) == Ok(f) && f != []
    ensures f[|f| - 1].start == Tail(cidr, SortByStart(rs))
  {
    assert f == FreeAfter(cidr, SortByStart(rs));
  }

  lemma NothingOffered(cidr: Cidr, rs: seq<Pool>, f: seq<Pool>)
    requires cidr.HasWindow() && Inv(cidr, rs) && FreeRanges(cidr, rs) == Ok(f)
    ensures f != [] && ((forall x :: !Offered(cidr, rs, x)) <==> |f| == 1 && f[0].start > cidr.Hi())
  {
    FreeListInOrder(cidr, rs);
    if |f| == 1 && f[0].start > cidr.Hi() {
      forall x ensures !Offered(cidr, rs, x) { FreeListExact(cidr, rs, x); }
    } else {
      var x := if |f| > 1 then f[0].start else cidr.Hi();
      FreeListExact(cidr, rs, x);
      assert f[0].start <= x <= f[0].end;
      assert Covered(f, x) && Offered(cidr, rs, x);
    }
  }

  /** The tail starts at most two addresses beyond the window: two iff the network is reserved to its end. */
  lemma TailReaches(cidr: Cidr, rs: seq<Pool>)
    requires cidr.HasWindow() && Inv(cidr, rs)
    ensures Tail(cidr, SortByStart(rs)) <= cidr.Hi() + 2
    ensures Tail(cidr, SortByStart(rs)) == cidr.Hi() + 2 <==> ReachesEnd(cidr, rs)
  {
    var p := SortByStart(rs);
    SortInv(cidr, rs);
    SortKeeps(cidr, rs);
    TailBehind(cidr, p);
    TailOnlyFromMatched(cidr, p);
    if Tail(cidr, p) != cidr.Lo() {
      var i :| 0 <= i < |p| && p[i].end == Tail(cidr, p) - 1 && p[i].start < cidr.Hi();
      assert p[i] in rs && Valid(cidr, p[i]);
    }
    if ReachesEnd(cidr, rs) {
      var j :| 0 <= j < |rs| && rs[j].start < cidr.Hi() && rs[j].end == cidr.Hi() + 1;
      assert rs[j] in p;
    }
  }

  /**
   * Reserving what the allocator returns keeps Inv for every length of at least 1; for length 0 iff
   * an address other than the last of the window is offered; for negative lengths never.
   */
  lemma AllocationKeepsInv(cidr: Cidr, rs: seq<Pool>, length: int)
    requires cidr.HasWindow() && Inv(cidr, rs)
    requires RangeInCidr(cidr, rs, length).Ok?
    ensures Inv(cidr, rs + [RangeInCidr(cidr, rs, length).value]) <==>
            length >= 1 || (length == 0 && exists x :: x < cidr.Hi() && Offered(cidr, rs, x))
  {
    var p := RangeInCidr(cidr, rs, length).value;
    var more := rs + [p];
    assert more[|rs|] == p;
    if length < 0 {
      NegativeLength(cidr, rs, length);
      assert !Valid(cidr, more[|rs|]);
    } else {
      if length == 0 { AllocatesLowestAddress(cidr, rs); } else { AllocatesLowestRun(cidr, rs, length); }
      assert Free(cidr, rs, p.start) && Free(cidr, rs, p.end);
      forall i | 0 <= i < |rs| ensures Apart(rs[i], p) {
        FreeIsApart(cidr, rs[i], rs, p);
      }
      AppendInv(cidr, rs, p);
    }
  }

  lemma AppendInv(cidr: Cidr, rs: seq<Pool>, p: Pool)
    requires cidr.HasWindow() && Inv(cidr, rs) && forall i :: 0 <= i < |rs| ==> Apart(rs[i], p)
    requires cidr.Lo() <= p.start <= p.end <= cidr.Hi()
    ensures Inv(cidr, rs + [p]) <==> p.start != cidr.Hi()
  {
    var more := rs + [p];
    assert more[|rs|] == p;
    assert forall i :: 0 <= i < |rs| ==> more[i] == rs[i];
    assert Placed(cidr, p) <==> p.start != cidr.Hi();
  }

  lemma SortedAlready(r: Pool, s: Pool)
    requires r.start < s.start
    ensures SortByStart([r]) == [r] && SortByStart([r, s]) == [r, s]
  {
    assert [r][..0] == [] && [r, s][..1] == [r];
    assert Insert(s, []) == [s];
    assert [r][1..] == [];
  }

  /** A witness for length 0: the address cidr[-2] is given out twice. */
  lemma SingleAddressGivenTwice()
    ensures var cidr := Cidr(0, 8);
            var rs := [Pool(4, 5)];
            && Inv(cidr, rs)
            && RangeInCidr(cidr, rs, 0) == Ok(Pool(6, 6))
            && RangeInCidr(cidr, rs + [Pool(6, 6)], 0) == Ok(Pool(6, 6))
  {
    var cidr := Cidr(0, 8);
    var r, s := Pool(4, 5), Pool(6, 6);
    SortedAlready(r, s);
    assert FreeAfter(cidr, []) == [Pool(4, 6)];
    assert FreeAfter(cidr, [r]) == [Pool(6, 6)] by { assert [r][..0] == []; }
    assert FreeAfter(cidr, [r, s]) == [Pool(6, 6)] by { assert [r, s][..1] == [r]; }
    assert [r] + [s] == [r, s];
  }

  // ------------------------------------- exactly when the free list is safe

  /** Every address handed out lies in the window and is not reserved. */
  ghost predicate Safe(cidr: Cidr, rs: seq<Pool>, f: seq<Pool>) {
    forall x :: Covered(f, x) ==> Free(cidr, rs, x)
  }

  /** A reservation ending before cidr[3] must be followed by another within two addresses. */
  ghost predicate Followed(cidr: Cidr, rs: seq<Pool>, r: Pool) {
    r.end < cidr.base + 3 ==> exists j :: 0 <= j < |rs| && r.end < rs[j].start <= r.end + 2
  }

  ghost predicate Guard(cidr: Cidr, rs: seq<Pool>) {
    && !StartsAt(rs, cidr.Hi())
    && forall i :: 0 <= i < |rs| ==> Followed(cidr, rs, rs[i])
  }

  /** The same on ordered reservations, one neighbour at a time, up to the last. */
  ghost predicate Chained(cidr: Cidr, p: seq<Pool>) {
    forall i, j :: 0 <= i < j < |p| && j == i + 1 && p[i].end < cidr.base + 3 ==> p[j].start <= p[i].end + 2
  }

  ghost predicate Increasing(p: seq<Pool>) {
    forall i, j :: 0 <= i < j < |p| ==> p[i].end < p[j].start
  }

  /** The tail starts right behind the last reservation that starts before cidr[-2]. */
  ghost predicate BehindLast(cidr: Cidr, p: seq<Pool>, t: int) {
    && (p == [] || p[0].start >= cidr.Hi() ==> t == cidr.Lo())
    && (p != [] && p[|p| - 1].start < cidr.Hi() ==> t == p[|p| - 1].end + 1)
    && (forall i :: 0 <= i < |p| && p[i].start < cidr.Hi() ==> p[i].end < t)
    && (t == cidr.Lo() || EndsAt(p, t - 1))
  }

  ghost predicate AllBefore(q: seq<Pool>, x: int) {
    forall i :: 0 <= i < |q| ==> q[i].end < x
  }

  /** Increasing reservations without their last one. */
  lemma IncreasingInit(cidr: Cidr, p: seq<Pool>) returns (q: seq<Pool>, r: Pool)
    requires p != [] && AllValid(cidr, p) && Increasing(p)
    ensures p == q + [r] && q == p[..|q|] && r == p[|q|]
    ensures AllValid(cidr, q) && Valid(cidr, r) && Increasing(q) && AllBefore(q, r.start)
  {
    q, r := p[..|p| - 1], p[|p| - 1];
  }

  lemma BehindLastGrows(cidr: Cidr, q: seq<Pool>, r: Pool, t: int)
    requires BehindLast(cidr, q, t) && AllValid(cidr, q) && Valid(cidr, r) && AllBefore(q, r.start)
    ensures BehindLast(cidr, q + [r], if r.start < cidr.Hi() then r.end + 1 else t)
  {
    var p := q + [r];
    assert p[|q|] == r && forall i :: 0 <= i < |q| ==> p[i] == q[i];
    if r.start < cidr.Hi() {
      assert p[|q|].end == r.end;
    } else if t != cidr.Lo() {
      var i :| 0 <= i < |q| && q[i].end == t - 1;
      assert p[i].end == t - 1;
    }
  }

  lemma {:induction false} TailIs(cidr: Cidr, p: seq<Pool>)
    requires AllValid(cidr, p) && Increasing(p)
    ensures BehindLast(cidr, p, Tail(cidr, p))
    decreases |p|
  {
    if p == [] {
      assert Tail(cidr, p) == cidr.Lo();
    } else {
      var q, r := IncreasingInit(cidr, p);
      TailIs(cidr, q);
      Unfold(cidr, q, r);
      BehindLastGrows(cidr, q, r, Tail(cidr, q));
    }
  }

  /** Closed ranges have two addresses or more, end before cidr[-2] and before x. */
  ghost predicate EndBefore(cidr: Cidr, c: seq<Pool>, x: int) {
    forall i :: 0 <= i < |c| ==> c[i].start < c[i].end < cidr.Hi() && c[i].end < x
  }

  /** Closed ranges keep clear of every reservation. */
  ghost predicate Clear(c: seq<Pool>, p: seq<Pool>) {
    forall i, k :: 0 <= i < |c| && 0 <= k < |p| ==> Apart(c[i], p[k])
  }

  lemma {:induction false} ClosedClear(cidr: Cidr, p: seq<Pool>)
    requires AllValid(cidr, p) && Increasing(p)
    ensures Clear(Closed(cidr, p), p)
    ensures p == [] ==> Closed(cidr, p) == []
    ensures p != [] ==> EndBefore(cidr, Closed(cidr, p), p[|p| - 1].start)
    decreases |p|
  {
    if p != [] {
      var q, r := IncreasingInit(cidr, p);
      var c, t := Closed(cidr, q), Tail(cidr, q);
      ClosedClear(cidr, q);
      TailIs(cidr, q);
      Unfold(cidr, q, r);
      assert EndBefore(cidr, c, r.start) && r.start <= r.end;
      var gap := if r.start < cidr.Hi() then Gap(t, r.start) else [];
      assert c + [] == c;
      assert Closed(cidr, p) == c + gap;
      ClearGrows(cidr, c, t, q, r, gap);
    }
  }

  /** One reservation more behind all others, and the gap before it. */
  lemma ClearGrows(cidr: Cidr, c: seq<Pool>, t: int, q: seq<Pool>, r: Pool, gap: seq<Pool>)
    requires Clear(c, q) && r.start <= r.end && EndBefore(cidr, c, r.start)
    requires gap == [] || (gap == Gap(t, r.start) && r.start < cidr.Hi() && forall k :: 0 <= k < |q| ==> q[k].end < t)
    ensures Clear(c + gap, q + [r]) && EndBefore(cidr, c + gap, r.start)
  {
  }

  ghost predicate StartInWindow(cidr: Cidr, c: seq<Pool>) {
    forall i :: 0 <= i < |c| ==> c[i].start >= cidr.Lo()
  }

  lemma ChainedGrows(cidr: Cidr, q: seq<Pool>, r: Pool)
    ensures Chained(cidr, q + [r]) <==>
            Chained(cidr, q)
            && (q != [] && q[|q| - 1].end < cidr.base + 3 ==> r.start <= q[|q| - 1].end + 2)
  {
    var p := q + [r];
    assert forall i :: 0 <= i < |q| ==> p[i] == q[i];
    assert p[|q|] == r;
    if Chained(cidr, p) {
      if q != [] && q[|q| - 1].end < cidr.base + 3 {
        var i := |q| - 1;
        assert p[i + 1].start <= p[i].end + 2;
      }
    }
  }

  lemma StartInWindowGrows(cidr: Cidr, c: seq<Pool>, t: int, start: int)
    ensures StartInWindow(cidr, c + Gap(t, start)) <==>
            StartInWindow(cidr, c) && (start - 1 > t ==> t >= cidr.Lo())
  {
    var d := c + Gap(t, start);
    assert forall i :: 0 <= i < |c| ==> d[i] == c[i];
    if start - 1 > t { assert d[|c|].start == t; }
  }

  /** Every reservation ending before cidr[3] has its follower. */
  ghost predicate AllChained(cidr: Cidr, p: seq<Pool>) {
    Chained(cidr, p) && (p == [] || p[|p| - 1].end >= cidr.base + 3)
  }

  /** The closed ranges stay in the window iff each early reservation has its follower. */
  ghost predicate WindowIffChained(cidr: Cidr, p: seq<Pool>) {
    && (p == [] || p[|p| - 1].start < cidr.Hi() ==>
          (StartInWindow(cidr, Closed(cidr, p)) <==> Chained(cidr, p)))
    && (StartInWindow(cidr, Closed(cidr, p)) && Tail(cidr, p) >= cidr.Lo() <==> AllChained(cidr, p))
  }

  lemma WindowStep(cidr: Cidr, q: seq<Pool>, r: Pool)
    requires cidr.size >= 8 && AllValid(cidr, q + [r]) && Increasing(q + [r])
    requires WindowIffChained(cidr, q)
    ensures WindowIffChained(cidr, q + [r])
  {
    LastNeighbours(cidr, q, r);
    StartInWindowGrows(cidr, Closed(cidr, q), Tail(cidr, q), r.start);
    var p, t, c := q + [r], Tail(cidr, q), Closed(cidr, q);
    assert p[|p| - 1] == r && p != [];
    var w, ch := StartInWindow(cidr, c), Chained(cidr, q);
    if r.start < cidr.Hi() {
      assert StartInWindow(cidr, Closed(cidr, p)) <==> w && (r.start - 1 > t ==> t >= cidr.Lo());
      assert q != [] ==> t == q[|q| - 1].end + 1;
    }
  }

  lemma {:induction false} ClosedInWindowIff(cidr: Cidr, p: seq<Pool>)
    requires cidr.size >= 8 && AllValid(cidr, p) && Increasing(p)
    ensures WindowIffChained(cidr, p)
    decreases |p|
  {
    if p != [] {
      var q, r := p[..|p| - 1], p[|p| - 1];
      assert p == q + [r];
      ClosedInWindowIff(cidr, q);
      WindowStep(cidr, q, r);
    }
  }

  /** What ClosedInWindowIff needs to know about the last two reservations. */
  lemma LastNeighbours(cidr: Cidr, q: seq<Pool>, r: Pool)
    requires AllValid(cidr, q + [r]) && Increasing(q + [r])
    ensures AllValid(cidr, q) && Increasing(q) && Valid(cidr, r)
    ensures q != [] ==> q[|q| - 1].start <= q[|q| - 1].end < r.start
    ensures q == [] ==> Tail(cidr, q) == cidr.Lo()
    ensures q != [] && q[|q| - 1].start < cidr.Hi() ==> Tail(cidr, q) == q[|q| - 1].end + 1
    ensures Chained(cidr, q + [r]) <==>
            Chained(cidr, q)
            && (q != [] && q[|q| - 1].end < cidr.base + 3 ==> r.start <= q[|q| - 1].end + 2)
    ensures r.start < cidr.Hi() ==>
              && Closed(cidr, q + [r]) == Closed(cidr, q) + Gap(Tail(cidr, q), r.start)
              && Tail(cidr, q + [r]) == r.end + 1
    ensures r.start >= cidr.Hi() ==>
              && Closed(cidr, q + [r]) == Closed(cidr, q)
              && Tail(cidr, q + [r]) == Tail(cidr, q)
  {
    var p := q + [r];
    assert forall i :: 0 <= i < |q| ==> p[i] == q[i];
    assert p[|q|] == r;
    if q != [] { assert Valid(cidr, p[|q| - 1]) && p[|q| - 1].end < p[|q|].start; }
    TailIs(cidr, q);
    Unfold(cidr, q, r);
    ChainedGrows(cidr, q, r);
  }

  lemma GuardOnOrdered(cidr: Cidr, p: seq<Pool>)
    requires AllValid(cidr, p) && Increasing(p)
    ensures Guard(cidr, p) <==> AllChained(cidr, p) && !StartsAt(p, cidr.Hi())
  {
    if AllChained(cidr, p) {
      forall i | 0 <= i < |p| ensures Followed(cidr, p, p[i]) {
        if p[i].end < cidr.base + 3 { assert p[i].end < p[i + 1].start <= p[i].end + 2; }
      }
    }
    if Guard(cidr, p) {
      forall i | 0 <= i < |p| && p[i].end < cidr.base + 3
        ensures i + 1 < |p| && p[i + 1].start <= p[i].end + 2
      {
        assert Followed(cidr, p, p[i]);
        var j :| 0 <= j < |p| && p[i].end < p[j].start <= p[i].end + 2;
        assert Valid(cidr, p[j]) && Valid(cidr, p[i]);
        assert i < j;
        assert Valid(cidr, p[i + 1]);
      }
    }
  }

  lemma SafeIsGuarded(cidr: Cidr, p: seq<Pool>)
    requires cidr.size >= 8 && AllValid(cidr, p) && Increasing(p)
    requires Safe(cidr, p, FreeAfter(cidr, p))
    ensures AllChained(cidr, p) && !StartsAt(p, cidr.Hi())
  {
    var c, t := Closed(cidr, p), Tail(cidr, p);
    ClosedClear(cidr, p);
    forall i | 0 <= i < |c| ensures c[i].start >= cidr.Lo() {
      assert Covered(c, c[i].start);
      CoveredSplit(cidr, p, c[i].start);
    }
    CoveredSplit(cidr, p, t);
    CoveredSplit(cidr, p, cidr.Hi());
    StartsAreReserved(cidr, p, cidr.Hi());
    HiStartLeavesTail(cidr, p);
    ClosedInWindowIff(cidr, p);
  }

  lemma GuardedIsSafe(cidr: Cidr, p: seq<Pool>)
    requires cidr.size >= 8 && AllValid(cidr, p) && Increasing(p)
    requires AllChained(cidr, p) && !StartsAt(p, cidr.Hi())
    ensures Safe(cidr, p, FreeAfter(cidr, p))
  {
    var c := Closed(cidr, p);
    ClosedClear(cidr, p);
    TailIs(cidr, p);
    ClosedInWindowIff(cidr, p);
    forall x | Covered(FreeAfter(cidr, p), x) ensures Free(cidr, p, x) {
      CoveredSplit(cidr, p, x);
      if Covered(c, x) {
        var i :| 0 <= i < |c| && c[i].start <= x <= c[i].end;
        forall k | 0 <= k < |p| ensures !(p[k].start <= x <= p[k].end) { assert Apart(c[i], p[k]); }
      } else {
        forall k | 0 <= k < |p| ensures !(p[k].start <= x <= p[k].end) { assert p[k].start != cidr.Hi(); }
      }
    }
  }

  lemma HiStartLeavesTail(cidr: Cidr, p: seq<Pool>)
    requires cidr.size >= 8 && AllValid(cidr, p) && Increasing(p)
    ensures StartsAt(p, cidr.Hi()) ==> Tail(cidr, p) <= cidr.Hi()
  {
    TailIs(cidr, p);
    if StartsAt(p, cidr.Hi()) && Tail(cidr, p) != cidr.Lo() {
      var k :| 0 <= k < |p| && p[k].start == cidr.Hi();
      assert p[k].end >= cidr.Hi() by { assert Valid(cidr, p[k]); }
      TailOnlyFromMatched(cidr, p);
      var i :| 0 <= i < |p| && p[i].end == Tail(cidr, p) - 1 && p[i].start < cidr.Hi();
      if k < i { assert p[k].end < p[i].start; }
    }
  }

  lemma {:induction false} TailOnlyFromMatched(cidr: Cidr, p: seq<Pool>)
    ensures Tail(cidr, p) == cidr.Lo()
            || exists i :: 0 <= i < |p| && p[i].end == Tail(cidr, p) - 1 && p[i].start < cidr.Hi()
    decreases |p|
  {
    if p != [] {
      var q, r := p[..|p| - 1], p[|p| - 1];
      assert p == q + [r];
      TailOnlyFromMatched(cidr, q);
      Unfold(cidr, q, r);
      if r.start < cidr.Hi() {
        assert p[|q|].end == Tail(cidr, p) - 1;
      } else if Tail(cidr, q) != cidr.Lo() {
        var i :| 0 <= i < |q| && q[i].end == Tail(cidr, q) - 1 && q[i].start < cidr.Hi();
        assert p[i].end == Tail(cidr, p) - 1;
      }
    }
  }

  /**
   * Exactly when the free list keeps off reserved addresses and inside the window, for
   * reservations that do not overlap. A network has 2 to a power of addresses, so any network
   * with a window has at least eight.
   */
  lemma SafeExactlyWhen(cidr: Cidr, rs: seq<Pool>)
    requires cidr.size >= 8 && AllValid(cidr, rs) && PairwiseApart(rs)
    ensures FreeRanges(cidr, rs).Ok?
    ensures Safe(cidr, rs, FreeRanges(cidr, rs).value) <==> Guard(cidr, rs)
  {
    var p := SortByStart(rs);
    SortOrdered(rs);
    SortKeeps(cidr, rs);
    forall i, j | 0 <= i < j < |p| ensures p[i].end < p[j].start {
      assert p[i].start <= p[j].start && Apart(p[i], p[j]) && Valid(cidr, p[i]) && Valid(cidr, p[j]);
    }
    if Safe(cidr, p, FreeAfter(cidr, p)) { SafeIsGuarded(cidr, p); }
    if AllChained(cidr, p) && !StartsAt(p, cidr.Hi()) { GuardedIsSafe(cidr, p); }
    GuardOnOrdered(cidr, p);
    if Guard(cidr, p) { GuardSame(cidr, p, rs); }
    if Guard(cidr, rs) { GuardSame(cidr, rs, p); }
  }

  lemma GuardSame(cidr: Cidr, p: seq<Pool>, rs: seq<Pool>)
    requires forall x :: x in p <==> x in rs
    requires forall x :: StartsAt(p, x) <==> StartsAt(rs, x)
    requires Guard(cidr, p)
    ensures Guard(cidr, rs)
  {
    forall i | 0 <= i < |rs| && rs[i].end < cidr.base + 3 ensures Followed(cidr, rs, rs[i]) {
      assert rs[i] in p;
      var k :| 0 <= k < |p| && p[k] == rs[i];
      assert Followed(cidr, p, p[k]);
      var j :| 0 <= j < |p| && p[k].end < p[j].start <= p[k].end + 2;
      assert p[j] in rs;
    }
  }
}
