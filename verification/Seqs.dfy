/** Sequences and sets, as every module uses them. */
module Seqs {
  /** Nothing occurs twice. */
  ghost predicate Distinct<T>(s: seq<T>) {
    forall i, j :: 0 <= i < j < |s| ==> s[i] != s[j]
  }

  lemma DistinctAppend<T>(s: seq<T>, x: T)
    ensures Distinct(s + [x]) <==> Distinct(s) && x !in s
  {
    var t := s + [x];
    assert t[|s|] == x;
    assert forall i :: 0 <= i < |s| ==> t[i] == s[i];
    if Distinct(t) {
      forall i | 0 <= i < |s| ensures s[i] != x { assert t[i] != t[|s|]; }
    }
  }

  lemma DistinctCons<T>(x: T, s: seq<T>)
    ensures Distinct([x] + s) <==> Distinct(s) && x !in s
  {
    var t := [x] + s;
    assert forall i :: 0 <= i < |s| ==> t[i + 1] == s[i];
    if Distinct(t) {
      forall i, j | 0 <= i < j < |s| ensures s[i] != s[j] { assert t[i + 1] != t[j + 1]; }
      forall i | 0 <= i < |s| ensures s[i] != x { assert t[0] != t[i + 1]; }
    }
    if Distinct(s) && x !in s {
      forall i, j | 0 <= i < j < |t| ensures t[i] != t[j] { assert t[j] == s[j - 1]; }
    }
  }

  lemma DistinctConcat<T>(s: seq<T>, t: seq<T>)
    ensures Distinct(s + t) <==> Distinct(s) && Distinct(t) && forall x :: x in s ==> x !in t
  {
    var u := s + t;
    if Distinct(u) {
      forall i, j | 0 <= i < j < |s| ensures s[i] != s[j] { assert u[i] != u[j]; }
      forall i, j | 0 <= i < j < |t| ensures t[i] != t[j] { assert u[|s| + i] != u[|s| + j]; }
      forall i, j | 0 <= i < |s| && 0 <= j < |t| ensures s[i] != t[j] { assert u[i] != u[|s| + j]; }
    }
    if Distinct(s) && Distinct(t) && forall x :: x in s ==> x !in t {
      forall i, j | 0 <= i < j < |u| ensures u[i] != u[j] {
        if i < |s| <= j { assert u[i] in s && u[j] in t; }
      }
    }
  }

  /** Behind head, fewer elements without repetition. */
  lemma DistinctKept<T>(head: seq<T>, rest: seq<T>, kept: seq<T>)
    requires Distinct(head + rest) && Distinct(kept) && forall x :: x in kept ==> x in rest
    ensures Distinct(head + kept) && forall x :: x in head + kept ==> x in head + rest
  {
    DistinctConcat(head, rest);
    DistinctConcat(head, kept);
  }

  function RemoveAt<T>(s: seq<T>, k: nat): seq<T>
    requires k < |s|
  {
    s[..k] + s[k + 1..]
  }

  /** The list without every copy of x. */
  function Without<T(==)>(s: seq<T>, x: T): seq<T> {
    if s == [] then [] else (if s[0] == x then [] else [s[0]]) + Without(s[1..], x)
  }

  lemma WithoutCons<T>(y: T, s: seq<T>, x: T)
    ensures Without([y] + s, x) == (if y == x then [] else [y]) + Without(s, x)
  {
    assert ([y] + s)[1..] == s;
  }

  lemma {:induction false} WithoutHas<T>(s: seq<T>, x: T, y: T)
    ensures y in Without(s, x) <==> y in s && y != x
  {
    if s != [] { WithoutHas(s[1..], x, y); }
  }

  lemma {:induction false} WithoutDistinct<T>(s: seq<T>, x: T)
    requires Distinct(s)
    ensures Distinct(Without(s, x))
  {
    if s != [] {
      var rest := Without(s[1..], x);
      assert s == [s[0]] + s[1..];
      DistinctCons(s[0], s[1..]);
      WithoutDistinct(s[1..], x);
      WithoutHas(s[1..], x, s[0]);
      DistinctCons(s[0], rest);
      assert [] + rest == rest;
    }
  }

  /** t has exactly the elements of s that pass the test, in their order, each as often as s. */
  ghost predicate Kept<T>(s: seq<T>, test: T -> bool, t: seq<T>) {
    exists at: seq<nat> :: KeptAt(s, test, t, at)
  }

  /** The positions in s at which the elements of t stand. */
  ghost predicate KeptAt<T>(s: seq<T>, test: T -> bool, t: seq<T>, at: seq<nat>) {
    && |at| == |t|
    && (forall i :: 0 <= i < |at| ==> at[i] < |s| && t[i] == s[at[i]])
    && (forall i, j :: 0 <= i < j < |at| ==> at[i] < at[j])
    && forall i: nat :: i < |s| ==> (i in at <==> test(s[i]))
  }

  lemma KeptNone<T>(test: T -> bool)
    ensures Kept([], test, [])
  {
    assert KeptAt([], test, [], []);
  }

  /** The same positions one further on. */
  function Later(at: seq<nat>): (l: seq<nat>)
    ensures |l| == |at| && forall i :: 0 <= i < |at| ==> l[i] == at[i] + 1
  {
    seq(|at|, i requires 0 <= i < |at| => at[i] + 1)
  }

  lemma LaterHas(at: seq<nat>, i: nat)
    ensures i in Later(at) <==> i > 0 && i - 1 in at
  {
    if i > 0 && i - 1 in at {
      var j :| 0 <= j < |at| && at[j] == i - 1;
      assert Later(at)[j] == i;
    }
  }

  lemma KeptAtSkips<T>(x: T, s: seq<T>, test: T -> bool, t: seq<T>, at: seq<nat>)
    requires KeptAt(s, test, t, at) && !test(x)
    ensures KeptAt([x] + s, test, t, Later(at))
  {
    forall i: nat | i < |s| + 1 ensures i in Later(at) <==> test(([x] + s)[i]) { LaterHas(at, i); }
  }

  lemma KeptAtTakes<T>(x: T, s: seq<T>, test: T -> bool, t: seq<T>, at: seq<nat>)
    requires KeptAt(s, test, t, at) && test(x)
    ensures KeptAt([x] + s, test, [x] + t, [0] + Later(at))
  {
    var (s', t', at') := ([x] + s, [x] + t, [0] + Later(at));
    forall i | 0 <= i < |at'| ensures at'[i] < |s'| && t'[i] == s'[at'[i]] {
      if i > 0 { assert at'[i] == at[i - 1] + 1 && t'[i] == t[i - 1] && s'[at[i - 1] + 1] == s[at[i - 1]]; }
    }
    forall i, j | 0 <= i < j < |at'| ensures at'[i] < at'[j] {
      if i > 0 { assert at[i - 1] < at[j - 1]; }
    }
    forall i: nat | i < |s'| ensures i in at' <==> test(s'[i]) {
      LaterHas(at, i);
      if i > 0 { assert s'[i] == s[i - 1]; }
    }
  }

  lemma KeptCons<T>(x: T, s: seq<T>, test: T -> bool, t: seq<T>)
    requires Kept(s, test, t)
    ensures Kept([x] + s, test, (if test(x) then [x] else []) + t)
  {
    var at: seq<nat> :| KeptAt(s, test, t, at);
    if test(x) {
      KeptAtTakes(x, s, test, t, at);
    } else {
      KeptAtSkips(x, s, test, t, at);
      assert [] + t == t;
    }
  }

  lemma KeptAtMore<T>(s: seq<T>, x: T, test: T -> bool, t: seq<T>, at: seq<nat>)
    requires KeptAt(s, test, t, at)
    ensures !test(x) ==> KeptAt(s + [x], test, t, at)
    ensures test(x) ==> KeptAt(s + [x], test, t + [x], at + [|s|])
  {
    var (s', at') := (s + [x], at + [|s|]);
    forall i | 0 <= i < |at| ensures s'[at[i]] == s[at[i]] && at[i] < |s| { }
    forall i: nat | i < |s'| ensures i in at' <==> i in at || i == |s| { }
    forall i: nat | i < |s| ensures s'[i] == s[i] { }
  }

  lemma KeptSnoc<T>(s: seq<T>, x: T, test: T -> bool, t: seq<T>)
    requires Kept(s, test, t)
    ensures Kept(s + [x], test, if test(x) then t + [x] else t)
  {
    hide KeptAt;
    var at: seq<nat> :| KeptAt(s, test, t, at);
    KeptAtMore(s, x, test, t, at);
  }

  lemma RemoveAtIndex<T>(s: seq<T>, k: nat)
    requires k < |s|
    ensures |RemoveAt(s, k)| == |s| - 1
    ensures forall i :: 0 <= i < |s| - 1 ==> RemoveAt(s, k)[i] == s[if i < k then i else i + 1]
  {
  }

  lemma RemoveAtTail<T>(s: seq<T>, k: nat)
    requires 0 < k < |s|
    ensures RemoveAt(s, k) == [s[0]] + RemoveAt(s[1..], k - 1)
  {
  }

  lemma AllKept<T>(s: seq<T>, test: T -> bool)
    requires forall x :: x in s ==> test(x)
    ensures Kept(s, test, s)
  {
    var at: seq<nat> := seq(|s|, i => i);
    forall i: nat | i < |s| ensures i in at { assert at[i] == i; }
    assert KeptAt(s, test, s, at);
  }

  /** An element that fails the test may be taken off first. */
  lemma KeptRemoved<T>(s: seq<T>, k: nat, test: T -> bool, t: seq<T>)
    requires k < |s| && !test(s[k]) && Kept(RemoveAt(s, k), test, t)
    ensures Kept(s, test, t)
  {
    var at: seq<nat> :| KeptAt(RemoveAt(s, k), test, t, at);
    KeptAtRemoved(s, k, test, t, at);
  }

  /** The position before one at k was taken out. */
  function Shifted(k: nat, i: nat): nat {
    if i < k then i else i + 1
  }

  lemma KeptAtRemoved<T>(s: seq<T>, k: nat, test: T -> bool, t: seq<T>, at: seq<nat>)
    requires k < |s| && !test(s[k]) && KeptAt(RemoveAt(s, k), test, t, at)
    ensures KeptAt(s, test, t, seq(|at|, i requires 0 <= i < |at| => Shifted(k, at[i])))
  {
    var (rest, at') := (RemoveAt(s, k), seq(|at|, i requires 0 <= i < |at| => Shifted(k, at[i])));
    RemoveAtIndex(s, k);
    forall i | 0 <= i < |at'| ensures at'[i] < |s| && t[i] == s[at'[i]] { assert t[i] == rest[at[i]]; }
    forall i: nat | i < |s| ensures i in at' <==> test(s[i]) { ShiftedHas(s, k, test, t, at, at', i); }
  }

  lemma ShiftedHas<T>(s: seq<T>, k: nat, test: T -> bool, t: seq<T>, at: seq<nat>, at': seq<nat>, i: nat)
    requires k < |s| && !test(s[k]) && KeptAt(RemoveAt(s, k), test, t, at) && i < |s|
    requires |at'| == |at| && forall n :: 0 <= n < |at| ==> at'[n] == Shifted(k, at[n])
    ensures i in at' <==> test(s[i])
  {
    RemoveAtIndex(s, k);
    if i != k {
      var j: nat := if i < k then i else i - 1;
      assert RemoveAt(s, k)[j] == s[i];
      assert j in at <==> test(s[i]);
      if j in at {
        var n :| 0 <= n < |at| && at[n] == j;
        assert at'[n] == i;
      }
      if i in at' {
        var n :| 0 <= n < |at| && at'[n] == i;
        assert at[n] == j;
      }
    }
  }

  /** list.remove: the list without the first element equal to x. */
  function RemoveFirst<T(==)>(s: seq<T>, x: T): (t: seq<T>)
    ensures |t| == if x in s then |s| - 1 else |s|
    ensures x !in s ==> t == s
    ensures forall y :: y in t ==> y in s
  {
    if s == [] then [] else if s[0] == x then s[1..] else [s[0]] + RemoveFirst(s[1..], x)
  }

  lemma {:induction false} RemoveFirstAt<T>(s: seq<T>, k: nat)
    requires k < |s| && forall i :: 0 <= i < k ==> s[i] != s[k]
    ensures RemoveFirst(s, s[k]) == RemoveAt(s, k)
  {
    if k > 0 {
      assert s[0] != s[k];
      RemoveFirstAt(s[1..], k - 1);
      RemoveAtTail(s, k);
    }
  }

  /** From a list without repetitions it takes that element alone. */
  lemma {:induction false} RemoveFirstHas<T>(s: seq<T>, x: T)
    requires Distinct(s)
    ensures Distinct(RemoveFirst(s, x)) && forall y :: y in RemoveFirst(s, x) <==> y in s && y != x
  {
    if s != [] {
      var rest := RemoveFirst(s[1..], x);
      assert s == [s[0]] + s[1..];
      DistinctCons(s[0], s[1..]);
      RemoveFirstHas(s[1..], x);
      DistinctCons(s[0], rest);
    }
  }

  lemma Regroup<T>(s: seq<T>, x: T, t: seq<T>)
    ensures s + ([x] + t) == (s + [x]) + t
  {
  }

  lemma Associate<T>(s: seq<T>, t: seq<T>, u: seq<T>)
    ensures (s + t) + u == s + (t + u)
  {
  }

  lemma SomeMember<T>(s: set<T>) returns (x: T)
    requires s != {}
    ensures x in s
  {
    x :| x in s;
  }
}
