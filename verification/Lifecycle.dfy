/**
 * Creating and destroying the forest of blueprints: the manager's collection of workers and the
 * database (src/nfvcl/blueprints_ng/lcm/blueprint_manager.py), the blueprint provider of a parent
 * (src/nfvcl/blueprints_ng/providers/blueprint/blueprint_provider.py) and BlueprintNG.destroy
 * (src/nfvcl/blueprints_ng/blueprint_ng.py). Ids are numbers in the order of creation.
 */
module Lifecycle {
  import opened Wrappers
  import opened Seqs

  type Id = nat

  /** A blueprint: its parent, its registered children, the blueprints its provider created. */
  datatype Record = Record(parent: Option<Id>, children: seq<Id>, deployed: seq<Id>, isProtected: bool)

  type Db = map<Id, Record>

  /** Stuck: the destroy raised in the worker, whose callback the caller waits for never fires. */
  datatype Outcome = Done | NotFound | Refused | Stuck

  /** What every record satisfies: children are later blueprints, created through the provider. */
  ghost predicate GoodRecord(db: Db, next: Id, b: Id)
    requires b in db
  {
    var r := db[b];
    && b < next
    && Distinct(r.children) && Distinct(r.deployed)
    && (forall c :: c in r.children ==> c in r.deployed)
    && (forall c :: c in r.deployed ==> b < c < next && (c in db ==> db[c].parent == Some(b)))
    && (r.parent.Some? ==> r.parent.value < b && r.parent.value in db && b in db[r.parent.value].deployed)
  }

  /** The database is a forest: no blueprint's parent is gone. */
  ghost predicate Forest(db: Db, next: Id) {
    forall b {:trigger GoodRecord(db, next, b)} :: b in db ==> GoodRecord(db, next, b)
  }

  /** x is b or a descendant of b. */
  ghost predicate Under(db: Db, x: Id, b: Id)
    decreases x
  {
    x == b || (x in db && db[x].parent.Some? && db[x].parent.value < x && Under(db, db[x].parent.value, b))
  }

  // ----------------------------------------------------- deleting from a forest

  /** Some records are gone, and of the others only b's lists have changed. */
  ghost predicate Shrunk(before: Db, now: Db, b: Id) {
    && b in before && b in now
    && now.Keys <= before.Keys
    && (forall x :: x in now && x != b ==> now[x] == before[x])
    && now[b].parent == before[b].parent && now[b].isProtected == before[b].isProtected
    && forall x :: x in before && x !in now ==> Under(before, x, b)
  }

  ghost function Subtree(db: Db, b: Id): set<Id> {
    set x | x in db && Under(db, x, b)
  }

  /** Descent is the same in the smaller forest, for who is still there. */
  lemma {:induction false} UnderSame(before: Db, now: Db, next: Id, b: Id, x: Id, c: Id)
    requires Shrunk(before, now, b) && Forest(now, next) && x in now
    ensures Under(now, x, c) <==> Under(before, x, c)
    decreases x
  {
    if x != c && now[x].parent.Some? {
      assert GoodRecord(now, next, x);
      UnderSame(before, now, next, b, now[x].parent.value, c);
    }
  }

  lemma {:induction false} UnderTrans(db: Db, x: Id, c: Id, b: Id)
    requires Under(db, x, c) && Under(db, c, b)
    ensures Under(db, x, b)
    decreases x
  {
    if x != c { UnderTrans(db, db[x].parent.value, c, b); }
  }

  /** One child and its descendants gone, the forest is smaller still. */
  lemma ChildGone(before: Db, now: Db, next: Id, b: Id, c: Id, after: Db)
    requires Shrunk(before, now, b) && Forest(now, next)
    requires c in now && now[c].parent == Some(b) && b < c
    requires after == now - Subtree(now, c)
    ensures Shrunk(before, after, b)
    ensures Forest(after, next)
    ensures c !in after
  {
    PruneKeepsForest(now, next, c);
    assert b in after by { NotUnderLater(now, b, c); }
    forall x | x in before && x !in after ensures Under(before, x, b) {
      if x in now {
        UnderSame(before, now, next, b, x, c);
        assert Under(before, c, b) by {
          assert before[c] == now[c];
          assert Under(before, b, b);
        }
        UnderTrans(before, x, c, b);
      }
    }
  }

  lemma {:induction false} NotUnderLater(db: Db, x: Id, b: Id)
    requires x < b
    ensures !Under(db, x, b)
    decreases x
  {
    if x in db && db[x].parent.Some? && db[x].parent.value < x { NotUnderLater(db, db[x].parent.value, b); }
  }

  /** Taking a whole subtree leaves a forest. */
  lemma PruneKeepsForest(db: Db, next: Id, b: Id)
    requires Forest(db, next)
    ensures Forest(db - Subtree(db, b), next)
  {
    var after := db - Subtree(db, b);
    forall x | x in after ensures GoodRecord(after, next, x) {
      assert GoodRecord(db, next, x);
      assert db[x].parent.Some? && Under(db, db[x].parent.value, b) ==> Under(db, x, b);
    }
  }

  /** Taking c from the children, and perhaps from what was deployed. */
  lemma ListsShorter(children: seq<Id>, all: seq<Id>, left: seq<Id>, c: Id)
    requires Distinct(children) && Distinct(all) && forall x :: x in children ==> x in all
    requires left == all || left == RemoveFirst(all, c)
    ensures Distinct(RemoveFirst(children, c)) && Distinct(left)
    ensures forall x :: x in RemoveFirst(children, c) ==> x in left && x in children && x != c
    ensures forall x :: x in children && x != c ==> x in RemoveFirst(children, c)
    ensures forall x :: x in left ==> x in all
    ensures forall x :: x in all && x !in left ==> x == c
  {
    RemoveFirstHas(children, c);
    RemoveFirstHas(all, c);
  }

  /** Shortening b's lists by ids that are gone leaves a forest. */
  lemma ShorterListsKeepForest(db: Db, next: Id, b: Id, children: seq<Id>, deployed: seq<Id>)
    requires Forest(db, next) && b in db
    requires Distinct(children) && Distinct(deployed) && forall c :: c in children ==> c in deployed
    requires forall c :: c in deployed ==> c in db[b].deployed
    requires forall c :: c in db[b].deployed && c !in deployed ==> c !in db
    ensures Forest(db[b := db[b].(children := children, deployed := deployed)], next)
  {
    var after := db[b := db[b].(children := children, deployed := deployed)];
    assert GoodRecord(db, next, b);
    forall x | x in after ensures GoodRecord(after, next, x) {
      assert GoodRecord(db, next, x);
    }
  }

  /** With b's children gone, b's subtree was all that left. */
  lemma AllGone(before: Db, now: Db, next: Id, b: Id)
    requires Shrunk(before, now, b) && Forest(now, next) && Forest(before, next)
    requires forall c :: c in now[b].deployed ==> c !in now
    ensures now - {b} == before - Subtree(before, b)
    ensures Forest(now - {b}, next)
  {
    forall x | x in now && x != b ensures !Under(before, x, b) {
      UnderSame(before, now, next, b, x, b);
      NobodyUnder(now, next, b, x);
    }
    PruneKeepsForest(before, next, b);
  }

  lemma {:induction false} NobodyUnder(db: Db, next: Id, b: Id, x: Id)
    requires Forest(db, next) && b in db && x in db && x != b
    requires forall c :: c in db[b].deployed ==> c !in db
    ensures !Under(db, x, b)
    decreases x
  {
    assert GoodRecord(db, next, x);
    if db[x].parent.Some? && db[x].parent.value != b { NobodyUnder(db, next, b, db[x].parent.value); }
  }

  /** Nothing in b's subtree is protected, and the worker of nothing there is one of these. */
  ghost predicate Clear(db: Db, b: Id, bad: set<Id>) {
    forall x {:trigger Under(db, x, b)} :: x in db && Under(db, x, b) ==> !db[x].isProtected && x !in bad
  }

  /** So it is below b, whatever b is itself. */
  ghost predicate ClearBelow(db: Db, b: Id, bad: set<Id>) {
    forall x {:trigger Under(db, x, b)} ::
      x in db && Under(db, x, b) && x != b ==> !db[x].isProtected && x !in bad
  }

  /** Some of b's children, and what is below those, are gone, and nothing else. */
  ghost predicate OnlyChildren(before: Db, now: Db, b: Id)
    requires b in before && b in now
  {
    forall x {:trigger BelowForgotten(before, now, b, x)} ::
      x in before && x !in now ==> BelowForgotten(before, now, b, x)
  }

  /** x is one of the children that b has forgotten, or below one. */
  ghost predicate BelowForgotten(before: Db, now: Db, b: Id, x: Id)
    requires b in before && b in now
  {
    exists c {:trigger Under(before, x, c)} :: c in before[b].children && c !in now[b].children && Under(before, x, c)
  }

  /** b has lost its children and all that is below them, but not what only its provider knows. */
  ghost predicate ChildrenGone(before: Db, now: Db, b: Id) {
    && b in before && b in now && now[b].children == []
    && forall x {:trigger x in now} ::
         x in before ==> (x !in now <==> exists c :: c in before[b].children && Under(before, x, c))
  }

  /** The protected blueprints below b are registered as children, not only known to the provider. */
  ghost predicate Registered(db: Db, b: Id) {
    forall x {:trigger Under(db, x, b)} ::
      x in db && Under(db, x, b) && x != b && db[x].isProtected ==> IsChild(db, x)
  }

  ghost predicate IsChild(db: Db, x: Id)
    requires x in db
  {
    db[x].parent.Some? && db[x].parent.value in db && x in db[db[x].parent.value].children
  }

  /** In the course of a destroy of b: what is gone was clear, and so are the children forgotten so far. */
  ghost predicate Midway(before: Db, now: Db, next: Id, b: Id, bad: set<Id>) {
    && Shrunk(before, now, b) && Forest(now, next) && Registered(before, b)
    && (forall x :: x in before && x !in now ==> !before[x].isProtected && x !in bad)
    && forall c :: c in before[b].children && c !in now[b].children ==> c !in now
  }

  /** Nothing outside b's subtree has changed, and b is still there. */
  ghost predicate Confined(before: Db, now: Db, b: Id) {
    && b in now && now.Keys <= before.Keys
    && forall x {:trigger Under(before, x, b)} {:trigger x in now} ::
         x in before && !Under(before, x, b) ==> x in now && now[x] == before[x]
  }

  /** What a delete of c leaves. */
  ghost function Deleted(db: Db, c: Id): Db {
    if c in db then db - Subtree(db, c) else db
  }

  lemma {:induction false} UnderEnds(db: Db, next: Id, x: Id, c: Id)
    requires Forest(db, next) && x in db && Under(db, x, c)
    ensures c in db
    decreases x
  {
    if x != c {
      assert GoodRecord(db, next, x);
      UnderEnds(db, next, db[x].parent.value, c);
    }
  }

  /** What is below a child that b has left was below b, with the same record. */
  lemma BelowChild(before: Db, now: Db, next: Id, b: Id, c: Id, x: Id)
    requires Shrunk(before, now, b) && Forest(now, next) && c in now[b].deployed
    requires x in now && Under(now, x, c)
    ensures Under(before, x, c) && Under(before, x, b) && x != b && now[x] == before[x] && b < c && c in now
  {
    assert GoodRecord(now, next, b);
    UnderEnds(now, next, x, c);
    UnderSame(before, now, next, b, x, c);
    assert Under(before, c, b) by {
      assert before[c] == now[c];
      assert Under(before, b, b);
    }
    UnderTrans(before, x, c, b);
    NotUnderLater(now, b, c);
  }

  /** The condition on protected blueprints is handed down to the children. */
  lemma ChildRegistered(before: Db, now: Db, next: Id, b: Id, c: Id, bad: set<Id>)
    requires Midway(before, now, next, b, bad) && c in now[b].deployed
    ensures Registered(now, c)
  {
    forall x | x in now && Under(now, x, c) && x != c && now[x].isProtected ensures IsChild(now, x) {
      BelowChild(before, now, next, b, c, x);
      assert GoodRecord(now, next, x);
      NotUnderLater(now, b, c);
      assert IsChild(before, x);
    }
  }

  /** A leftover that is still there is not protected, once the registered children are gone. */
  lemma LeftoverUnprotected(before: Db, now: Db, next: Id, b: Id, c: Id, bad: set<Id>)
    requires Midway(before, now, next, b, bad) && c in now[b].deployed && c in now && now[b].children == []
    ensures !now[c].isProtected
  {
    assert Under(now, c, c);
    BelowChild(before, now, next, b, c, c);
    assert GoodRecord(now, next, b);
    assert IsChild(before, c) || !before[c].isProtected;
  }

  /** What blocks a child's delete is in b's subtree. */
  lemma BlockedBelow(before: Db, now: Db, next: Id, b: Id, c: Id, bad: set<Id>)
    requires Midway(before, now, next, b, bad) && c in now[b].deployed && !Clear(now, c, bad)
    ensures !ClearBelow(before, b, bad)
  {
    var x :| x in now && Under(now, x, c) && (now[x].isProtected || x in bad);
    BelowChild(before, now, next, b, c, x);
  }

  lemma ChildDeleted(before: Db, now: Db, next: Id, b: Id, c: Id, bad: set<Id>)
    requires Midway(before, now, next, b, bad) && c in now[b].deployed && (c in now ==> Clear(now, c, bad))
    ensures var after := Deleted(now, c);
            Midway(before, after, next, b, bad) && c !in after && after[b] == now[b]
  {
    var after := Deleted(now, c);
    assert GoodRecord(now, next, b);
    if c in now {
      ChildGone(before, now, next, b, c, after);
      NotUnderLater(now, b, c);
      forall x | x in before && x !in after ensures !before[x].isProtected && x !in bad {
        if x in now { BelowChild(before, now, next, b, c, x); }
      }
    }
  }

  /** A child's delete that got stuck has changed nothing outside b's subtree. */
  lemma ChildConfined(before: Db, now: Db, next: Id, b: Id, c: Id, after: Db)
    requires Shrunk(before, now, b) && Forest(now, next) && c in now[b].deployed && Confined(now, after, c)
    ensures Confined(before, after, b)
  {
    assert GoodRecord(now, next, b);
    NotUnderLater(now, b, c);
    forall x | x in before && !Under(before, x, b) ensures x in after && after[x] == before[x] {
      assert Under(before, b, b);
      assert x in now && now[x] == before[x];
      if Under(now, x, c) { BelowChild(before, now, next, b, c, x); }
    }
  }

  lemma ShrunkIsConfined(before: Db, now: Db, b: Id)
    requires Shrunk(before, now, b)
    ensures Confined(before, now, b)
  {
    assert Under(before, b, b);
  }

  /** The child's id taken off b's lists. */
  lemma ChildForgotten(before: Db, now: Db, next: Id, b: Id, c: Id, deployed: seq<Id>, bad: set<Id>)
    requires Midway(before, now, next, b, bad) && c !in now
    requires deployed == now[b].deployed || deployed == RemoveFirst(now[b].deployed, c)
    ensures var children := RemoveFirst(now[b].children, c);
            Midway(before, now[b := now[b].(children := children, deployed := deployed)], next, b, bad)
  {
    assert GoodRecord(now, next, b);
    ListsShorter(now[b].children, now[b].deployed, deployed, c);
    ShorterListsKeepForest(now, next, b, RemoveFirst(now[b].children, c), deployed);
  }

  lemma AllForgotten(before: Db, now: Db, next: Id, b: Id, bad: set<Id>)
    requires Midway(before, now, next, b, bad) && forall c :: c in now[b].deployed ==> c !in now
    ensures Midway(before, now[b := now[b].(deployed := [], children := [])], next, b, bad)
  {
    assert GoodRecord(now, next, b);
    ShorterListsKeepForest(now, next, b, [], []);
  }

  lemma ClearIs(db: Db, b: Id, bad: set<Id>)
    requires b in db
    ensures Clear(db, b, bad) <==> ClearBelow(db, b, bad) && !db[b].isProtected && b !in bad
  {
    assert Under(db, b, b);
  }

  /** One more child gone. */
  lemma OnlyChildrenMore(before: Db, now: Db, next: Id, b: Id, c: Id, after: Db, bad: set<Id>)
    requires Midway(before, now, next, b, bad) && OnlyChildren(before, now, b)
    requires c in now[b].children && c in before[b].children && Distinct(now[b].children)
    requires b in after && after[b].children == RemoveFirst(now[b].children, c)
    requires forall x :: x in now && x !in after ==> Under(now, x, c)
    ensures OnlyChildren(before, after, b)
  {
    RemoveFirstHas(now[b].children, c);
    forall x | x in before && x !in after ensures BelowForgotten(before, after, b, x) {
      if x in now {
        assert GoodRecord(now, next, b);
        BelowChild(before, now, next, b, c, x);
      } else {
        assert BelowForgotten(before, now, b, x);
      }
    }
  }

  /** After the loop over the children. */
  lemma AllChildrenGone(before: Db, now: Db, next: Id, b: Id, bad: set<Id>)
    requires Midway(before, now, next, b, bad) && OnlyChildren(before, now, b) && now[b].children == []
    ensures ChildrenGone(before, now, b)
  {
    forall x | x in before ensures x !in now <==> exists c :: c in before[b].children && Under(before, x, c) {
      if x !in now { assert BelowForgotten(before, now, b, x); }
      forall c | c in before[b].children && Under(before, x, c) ensures x !in now {
        assert c !in now;
        if x in now {
          UnderSame(before, now, next, b, x, c);
          UnderEnds(now, next, x, c);
          assert false;
        }
      }
    }
  }

  /** When b is all that is left of its subtree, and clear itself, the subtree was clear. */
  lemma AllWasClear(before: Db, now: Db, next: Id, b: Id, bad: set<Id>)
    requires Midway(before, now, next, b, bad) && now - {b} == before - Subtree(before, b)
    requires !before[b].isProtected && b !in bad
    ensures Clear(before, b, bad)
  {
    forall x | x in before && Under(before, x, b) ensures !before[x].isProtected && x !in bad {
      assert x !in before - Subtree(before, b);
    }
  }

  // ------------------------------------------------------------------ the manager

  /** Lists only name later blueprints: this much holds whatever is protected, or has been orphaned. */
  ghost predicate Ordered(db: Db, next: Id) {
    forall b {:trigger LaterOnly(db, next, b)} :: b in db ==> LaterOnly(db, next, b)
  }

  ghost predicate LaterOnly(db: Db, next: Id, b: Id)
    requires b in db
  {
    b < next && forall c :: c in db[b].children || c in db[b].deployed ==> b < c < next
  }

  /** Blueprints created before b are as they were. */
  ghost predicate OlderSame(before: Db, now: Db, b: Id) {
    forall x :: x in before && x < b ==> x in now && now[x] == before[x]
  }

  class BlueprintManager {
    var db: Db
    var workers: set<Id>
    var dead: set<Id> // of the workers those whose thread has ended or waits for ever
    var broken: set<Id> // the blueprints whose VMs or Helm charts cannot be destroyed
    var next: Id

    constructor (broken: set<Id>)
      ensures Valid() && Forest(db, next) && db == map[] && dead == {} && this.broken == broken
    {
      db, workers, dead, next := map[], {}, {}, 0;
      this.broken := broken;
    }

    ghost predicate Valid()
      reads this
    {
      Ordered(db, next) && dead <= workers <= db.Keys
    }

    /** create_blueprint, for a parent through its provider, which notes the new id. */
    method CreateBlueprint(parent: Option<Id>) returns (b: Id)
      requires Valid() && Forest(db, next) && (parent.Some? ==> parent.value in db)
      modifies this`db, this`workers, this`next
      ensures Valid() && Forest(db, next)
      ensures b == old(next) && b !in old(db) && next == old(next) + 1 && workers == old(workers) + {b}
      ensures db.Keys == old(db).Keys + {b} && db[b] == Record(parent, [], [], false)
      ensures forall x :: x in old(db) && parent != Some(x) ==> db[x] == old(db)[x]
      ensures parent.Some? ==>
                && var was := old(db)[parent.value];
                   db[parent.value] == was.(deployed := was.deployed + [b])
      ensures db == WithNew(old(db), b, parent)
    {
      assert next in db ==> LaterOnly(db, next, next);
      b := next;
      next := next + 1;
      CreationKeepsForest(db, b, parent);
      db := db[b := Record(parent, [], [], false)];
      workers := workers + {b};
      if parent.Some? {
        db := db[parent.value := db[parent.value].(deployed := db[parent.value].deployed + [b])];
      }
    }

    /** register_children; it raises when the child is there already. */
    method RegisterChild(parent: Id, child: Id) returns (ok: bool)
      requires Valid() && Forest(db, next) && parent in db && child in db[parent].deployed
      modifies this`db
      ensures Valid() && Forest(db, next)
      ensures ok <==> child !in old(db)[parent].children
      ensures db == if ok
                    then old(db)[parent := old(db)[parent].(children := old(db)[parent].children + [child])]
                    else old(db)
    {
      ok := child !in db[parent].children;
      if ok {
        assert GoodRecord(db, next, parent);
        db := db[parent := db[parent].(children := db[parent].children + [child])];
        forall x | x in db ensures GoodRecord(db, next, x) { assert GoodRecord(old(db), next, x); }
      }
    }

    /** protect_blueprint, outside the thread of the worker: it needs no answer, even from a dead one. */
    method ProtectBlueprint(b: Id, protect: bool)
      requires Valid() && b in db
      modifies this`db, this`workers
      ensures Valid() && workers == old(workers) + {b} && db == old(db)[b := old(db)[b].(isProtected := protect)]
      ensures Forest(old(db), next) ==> Forest(db, next)
    {
      ghost var before := db;
      workers := workers + {b};
      assert LaterOnly(db, next, b);
      ShorterListsKeepOrder(db, next, b, db[b].(isProtected := protect));
      db := db[b := db[b].(isProtected := protect)];
      if Forest(before, next) {
        forall x | x in db ensures GoodRecord(db, next, x) { assert GoodRecord(before, next, x); }
      }
    }

    /**
     * delete_blueprint(wait=True); Stuck stands for waiting for ever. In a forest, if the protected
     * blueprints below are registered children, it succeeds iff nothing in the subtree is protected, has
     * a dead worker or resources that cannot be destroyed. Then it takes from the database and from the
     * collection exactly the blueprint and its descendants, and leaves a forest. Otherwise it leaves a
     * forest too, in which nothing outside the subtree has changed, and the worker is dead; and if only
     * its own resources are to blame, its registered children are gone with all below them, and no other.
     */
    method DeleteBlueprint(b: Id) returns (o: Outcome)
      requires Valid()
      modifies this`db, this`workers, this`dead
      ensures Valid() && OlderSame(old(db), db, b)
      ensures forall x :: x < b ==> (x in workers <==> x in old(workers))
      ensures old(dead) <= dead && (o != Stuck ==> dead == old(dead)) && (o == Stuck ==> b in dead)
      ensures forall x :: x < b ==> (x in dead <==> x in old(dead))
      ensures b !in old(db) ==> o == NotFound && db == old(db) && workers == old(workers)
      ensures b in old(db) && old(db)[b].isProtected ==>
                o == Refused && db == old(db) && workers == old(workers) + {b}
      ensures b in old(db) && !old(db)[b].isProtected ==> o == Done || o == Stuck
      ensures b in old(dead) && !old(db)[b].isProtected ==> o == Stuck && db == old(db) && workers == old(workers)
      ensures b in old(db) && !old(db)[b].isProtected && Forest(old(db), next) && Registered(old(db), b) ==>
                && Forest(db, next)
                && (o == Done <==> Clear(old(db), b, old(dead) + broken))
                && (o == Stuck ==> Confined(old(db), db, b))
                && (o == Stuck && b !in old(dead) && ClearBelow(old(db), b, old(dead) + broken) ==>
                      ChildrenGone(old(db), db, b))
                && (o == Done ==> db == old(db) - Subtree(old(db), b) && workers == old(workers) - Subtree(old(db), b))
      decreases next - b, 2
    {
      if b !in workers {
        if b !in db { return NotFound; }
        workers := workers + {b};
      }
      assert Under(db, b, b);
      if db[b].isProtected { return Refused; }
      if b in dead { return Stuck; }
      o := Destroy(b);
      if o == Done { workers := workers - {b}; } else { dead := dead + {b}; }
    }

    /** BlueprintNG.destroy, in the worker of b. */
    method Destroy(b: Id) returns (o: Outcome)
      requires Valid() && b in workers && b !in dead && !db[b].isProtected
      modifies this`db, this`workers, this`dead
      ensures o == Done || o == Stuck
      ensures Ordered(db, next) && OlderSame(old(db), db, b)
      ensures b in workers && dead <= workers && old(dead) <= dead && (o == Done ==> dead == old(dead))
      ensures forall x :: x <= b ==> (x in dead <==> x in old(dead))
      ensures o == Done ==> b !in db && workers <= db.Keys + {b}
      ensures o == Stuck ==> workers <= db.Keys
      ensures forall x :: x < b ==> (x in workers <==> x in old(workers))
      ensures Forest(old(db), next) && Registered(old(db), b) ==>
                && Forest(db, next)
                && (o == Done <==> Clear(old(db), b, old(dead) + broken))
                && (o == Stuck ==> Confined(old(db), db, b))
                && (o == Stuck && ClearBelow(old(db), b, old(dead) + broken) ==> ChildrenGone(old(db), db, b))
                && (o == Done ==> && db == old(db) - Subtree(old(db), b)
                                  && workers == old(workers) - Subtree(old(db), b) + {b})
      decreases next - b, 1
    {
      ghost var (before, bad) := (db, dead + broken);
      ghost var safe := Forest(db, next) && Registered(db, b);
      assert Under(db, b, b);
      if safe { ClearIs(before, b, bad); }
      o := DestroyChildren(b);
      if o == Stuck { return; }
      if safe { AllChildrenGone(before, db, next, b, bad); }
      // a provider that fails to destroy a VM or to uninstall a chart raises
      if b in broken {
        if safe { ShrunkIsConfined(before, db, b); }
        return Stuck;
      }
      o := FinalCleanup(before, b);
      if o == Stuck { return; }
      if safe {
        AllGone(before, db, next, b);
        AllWasClear(before, db, next, b, bad);
      }
      RemovalKeepsOrder(db, next, b);
      db := db - {b};
    }

    /** Its loop over a copy of the children. */
    method DestroyChildren(b: Id) returns (o: Outcome)
      requires Valid() && b in workers
      modifies this`db, this`workers, this`dead
      ensures o == Done || o == Stuck
      ensures Valid() && b in workers && OlderSame(old(db), db, b)
      ensures old(dead) <= dead && (o == Done ==> dead == old(dead))
      ensures forall x :: x <= b ==> (x in dead <==> x in old(dead))
      ensures b in old(db) && db[b].isProtected == old(db)[b].isProtected
      ensures forall x :: x < b ==> (x in workers <==> x in old(workers))
      ensures Forest(old(db), next) && Registered(old(db), b) ==>
                && Progress(old(db), b, o, old(dead) + broken)
                && (o == Done ==> && db[b].children == [] && OnlyChildren(old(db), db, b)
                                  && workers == old(workers) - (old(db).Keys - db.Keys))
      decreases next - b, 0, 2
    {
      ghost var (before, bad) := (db, dead + broken);
      ghost var safe := Forest(db, next) && Registered(db, b);
      var todo := db[b].children;
      var i := 0;
      assert LaterOnly(db, next, b);
      while i < |todo|
        invariant 0 <= i <= |todo|
        invariant Valid() && b in workers && OlderSame(before, db, b) && dead == old(dead)
        invariant db[b].isProtected == before[b].isProtected
        invariant forall x :: x < b ==> (x in workers <==> x in old(workers))
        invariant safe ==> Midway(before, db, next, b, bad) && db[b].children == todo[i..]
        invariant safe ==> OnlyChildren(before, db, b)
        invariant safe ==> workers == old(workers) - (before.Keys - db.Keys)
      {
        assert todo[i] in before[b].children;
        assert todo[i..][0] == todo[i] && todo[i..][1..] == todo[i + 1..];
        ghost var (now, some) := (db, workers);
        if safe { assert GoodRecord(now, next, b); }
        o := DestroyChild(before, b, todo[i]);
        if o == Stuck { return; }
        if safe {
          WorkersGone(old(workers), some, before.Keys, now.Keys, db.Keys);
          OnlyChildrenMore(before, now, next, b, todo[i], db, bad);
        }
        i := i + 1;
      }
      o := Done;
    }

    /** Either still on the way, or stuck for a reason in b's subtree, and nothing outside it touched. */
    ghost predicate Progress(before: Db, b: Id, o: Outcome, bad: set<Id>)
      reads this
    {
      && Forest(db, next)
      && if o == Done then Midway(before, db, next, b, bad)
         else Confined(before, db, b) && !ClearBelow(before, b, bad)
    }

    /** One turn of the loop over the children: the provider deletes the child, b forgets it. */
    method DestroyChild(ghost before: Db, b: Id, child: Id) returns (o: Outcome)
      requires Valid() && b in workers && b < child < next
      modifies this`db, this`workers, this`dead
      ensures o == Done || o == Stuck
      ensures Valid() && b in workers && OlderSame(old(db), db, b)
      ensures old(dead) <= dead && (o == Done ==> dead == old(dead))
      ensures forall x :: x <= b ==> (x in dead <==> x in old(dead))
      ensures db[b].isProtected == old(db)[b].isProtected
      ensures forall x :: x < b ==> (x in workers <==> x in old(workers))
      ensures Midway(before, old(db), next, b, old(dead) + broken) && child in old(db)[b].children ==>
                && Progress(before, b, o, old(dead) + broken)
                && (o == Done ==> && db[b].children == RemoveFirst(old(db)[b].children, child)
                                  && db.Keys <= old(db).Keys
                                  && (forall x :: x in old(db) && x !in db ==> Under(old(db), x, child))
                                  && workers == old(workers) - (old(db).Keys - db.Keys))
      decreases next - b, 0, 1
    {
      ghost var bad := dead + broken;
      ghost var safe := Midway(before, db, next, b, bad) && child in db[b].children;
      if safe { assert GoodRecord(db, next, b); }
      o := DeleteChild(before, b, child);
      if o == Stuck { return; }
      if safe {
        var deployed := if o == Done then RemoveFirst(db[b].deployed, child) else db[b].deployed;
        ChildForgotten(before, db, next, b, child, deployed, bad);
      }
      o := ForgetChild(b, child, o == Done);
    }

    /** The call of the provider; only BlueprintNotFoundException is caught. */
    method DeleteChild(ghost before: Db, b: Id, c: Id) returns (o: Outcome)
      requires Valid() && b in workers && b < c < next
      modifies this`db, this`workers, this`dead
      ensures o == Done || o == NotFound || o == Stuck
      ensures Valid() && b in workers && OlderSame(old(db), db, c)
      ensures old(dead) <= dead && (o != Stuck ==> dead == old(dead))
      ensures forall x :: x <= b ==> (x in dead <==> x in old(dead))
      ensures forall x :: x < b ==> (x in workers <==> x in old(workers))
      ensures Midway(before, old(db), next, b, old(dead) + broken) && c in old(db)[b].deployed ==>
                && Progress(before, b, if o == Stuck then Stuck else Done, old(dead) + broken)
                && (o != Stuck ==> && db == Deleted(old(db), c) && c !in db && db[b] == old(db)[b]
                                   && workers == old(workers) - (old(db).Keys - db.Keys))
      decreases next - b, 0, 0
    {
      ghost var (now, bad) := (db, dead + broken);
      ghost var safe := Midway(before, db, next, b, bad) && c in db[b].deployed;
      if safe { ChildRegistered(before, db, next, b, c, bad); }
      o := DeleteBlueprint(c);
      if o == Refused || o == Stuck {
        if safe { ChildStops(before, now, next, b, c, db, bad, o); }
        return Stuck;
      }
      if safe { ChildDeleted(before, now, next, b, c, bad); }
    }

    /** b's provider and b itself forget the child; each raises when it does not know it. */
    method ForgetChild(b: Id, child: Id, deleted: bool) returns (o: Outcome)
      requires Valid() && b in db
      modifies this`db
      ensures Valid() && (o == Done || o == Stuck)
      ensures o == Done <==> child in old(db)[b].children && (deleted ==> child in old(db)[b].deployed)
      ensures db.Keys == old(db).Keys && forall x :: x in db && x != b ==> db[x] == old(db)[x]
      ensures db[b].isProtected == old(db)[b].isProtected
      ensures o == Done ==>
                && var r := old(db)[b];
                && var deployed := if deleted then RemoveFirst(r.deployed, child) else r.deployed;
                && db == old(db)[b := r.(children := RemoveFirst(r.children, child), deployed := deployed)]
    {
      var record := db[b];
      if deleted {
        if child !in record.deployed { return Stuck; }
        record := record.(deployed := RemoveFirst(record.deployed, child));
      }
      o := if child in record.children then Done else Stuck;
      record := record.(children := RemoveFirst(record.children, child));
      ShorterListsKeepOrder(db, next, b, record);
      db := db[b := record];
    }

    /** final_cleanup of b's provider: leftovers are deleted, failures only logged. */
    method FinalCleanup(ghost before: Db, b: Id) returns (o: Outcome)
      requires Valid() && b in workers
      modifies this`db, this`workers, this`dead
      ensures o == Done || o == Stuck
      ensures Valid() && b in workers && OlderSame(old(db), db, b)
      ensures old(dead) <= dead && (o == Done ==> dead == old(dead))
      ensures forall x :: x <= b ==> (x in dead <==> x in old(dead))
      ensures forall x :: x < b ==> (x in workers <==> x in old(workers))
      ensures Midway(before, old(db), next, b, old(dead) + broken) && old(db)[b].children == [] ==>
                && Progress(before, b, o, old(dead) + broken)
                && (o == Done ==> && db[b].deployed == []
                                  && db.Keys <= old(db).Keys
                                  && workers == old(workers) - (old(db).Keys - db.Keys))
      decreases next - b, 0, 2
    {
      ghost var (first, bad) := (db, dead + broken);
      ghost var safe := Midway(before, db, next, b, bad) && db[b].children == [];
      o := DeleteLeftovers(before, b);
      if o == Stuck { return; }
      if safe { AllForgotten(before, db, next, b, bad); }
      ShorterListsKeepOrder(db, next, b, db[b].(deployed := []));
      db := db[b := db[b].(deployed := [])];
      assert safe ==> db[b] == first[b].(deployed := [], children := []);
    }

    /** Its loop. */
    method DeleteLeftovers(ghost before: Db, b: Id) returns (o: Outcome)
      requires Valid() && b in workers
      modifies this`db, this`workers, this`dead
      ensures o == Done || o == Stuck
      ensures Valid() && b in workers && OlderSame(old(db), db, b)
      ensures old(dead) <= dead && (o == Done ==> dead == old(dead))
      ensures forall x :: x <= b ==> (x in dead <==> x in old(dead))
      ensures forall x :: x < b ==> (x in workers <==> x in old(workers))
      ensures Midway(before, old(db), next, b, old(dead) + broken) && old(db)[b].children == [] ==>
                && Progress(before, b, o, old(dead) + broken)
                && (o == Done ==> && db[b] == old(db)[b] && (forall c :: c in db[b].deployed ==> c !in db)
                                  && db.Keys <= old(db).Keys
                                  && workers == old(workers) - (old(db).Keys - db.Keys))
      decreases next - b, 0, 1
    {
      ghost var (first, bad) := (db, dead + broken);
      ghost var safe := Midway(before, db, next, b, bad) && db[b].children == [];
      var todo := db[b].deployed;
      var i := 0;
      assert LaterOnly(db, next, b);
      while i < |todo|
        invariant 0 <= i <= |todo|
        invariant Valid() && b in workers && OlderSame(first, db, b) && db[b] == first[b] && dead == old(dead)
        invariant forall x :: x < b ==> (x in workers <==> x in old(workers))
        invariant safe ==> Midway(before, db, next, b, bad) && db.Keys <= first.Keys
        invariant safe ==> forall k :: 0 <= k < i ==> todo[k] !in db
        invariant safe ==> workers == old(workers) - (first.Keys - db.Keys)
      {
        assert todo[i] in first[b].deployed;
        ghost var (keys, some) := (db.Keys, workers);
        o := DeleteLeftover(before, b, todo[i]);
        if o == Stuck { return; }
        if safe { WorkersGone(old(workers), some, first.Keys, keys, db.Keys); }
        i := i + 1;
      }
      o := Done;
    }

    /** It waits for ever on a leftover that is stuck; any other failure is only logged. */
    method DeleteLeftover(ghost before: Db, b: Id, c: Id) returns (o: Outcome)
      requires Valid() && b in workers && b < c < next
      modifies this`db, this`workers, this`dead
      ensures o == Done || o == Stuck
      ensures Valid() && b in workers && OlderSame(old(db), db, c)
      ensures old(dead) <= dead && (o == Done ==> dead == old(dead))
      ensures forall x :: x <= b ==> (x in dead <==> x in old(dead))
      ensures forall x :: x < b ==> (x in workers <==> x in old(workers))
      ensures Midway(before, old(db), next, b, old(dead) + broken) && old(db)[b].children == []
              && c in old(db)[b].deployed ==>
                && Progress(before, b, o, old(dead) + broken)
                && (o == Done ==> && db == Deleted(old(db), c) && c !in db
                                  && workers == old(workers) - (old(db).Keys - db.Keys))
      decreases next - b, 0, 0
    {
      ghost var (now, bad) := (db, dead + broken);
      ghost var safe := Midway(before, db, next, b, bad) && db[b].children == [] && c in db[b].deployed;
      if safe { ChildRegistered(before, db, next, b, c, bad); }
      o := DeleteBlueprint(c);
      if o == Stuck {
        if safe { ChildStops(before, now, next, b, c, db, bad, o); }
        return;
      }
      if safe {
        if c in now { LeftoverUnprotected(before, now, next, b, c, bad); }
        ChildDeleted(before, now, next, b, c, bad);
      }
      o := Done;
    }
  }

  lemma WorkersGone(first: set<Id>, some: set<Id>, k0: set<Id>, k1: set<Id>, k2: set<Id>)
    requires k2 <= k1 <= k0 && some == first - (k0 - k1)
    ensures some - (k1 - k2) == first - (k0 - k2)
  {
  }

  /** A child that is refused or stuck: the reason is in b's subtree, and nothing outside it changed. */
  lemma ChildStops(before: Db, now: Db, next: Id, b: Id, c: Id, after: Db, bad: set<Id>, o: Outcome)
    requires Midway(before, now, next, b, bad) && c in now[b].deployed && c in now
    requires o == Refused ==> after == now && now[c].isProtected
    requires o == Stuck ==> Confined(now, after, c) && !Clear(now, c, bad)
    requires o == Refused || o == Stuck
    ensures Confined(before, after, b) && !ClearBelow(before, b, bad)
  {
    assert Under(now, c, c);
    BlockedBelow(before, now, next, b, c, bad);
    if o == Stuck { ChildConfined(before, now, next, b, c, after); } else { ShrunkIsConfined(before, now, b); }
  }

  /** The database with a new blueprint, noted by its parent's provider. */
  function WithNew(db: Db, b: Id, parent: Option<Id>): Db
    requires parent.Some? ==> parent.value in db
  {
    var more := db[b := Record(parent, [], [], false)];
    if parent.None? then more
    else more[parent.value := more[parent.value].(deployed := more[parent.value].deployed + [b])]
  }

  lemma CreationKeepsForest(db: Db, b: Id, parent: Option<Id>)
    requires Forest(db, b) && (parent.Some? ==> parent.value in db)
    ensures Forest(WithNew(db, b, parent), b + 1) && Ordered(WithNew(db, b, parent), b + 1)
  {
    var now := WithNew(db, b, parent);
    if parent.Some? { assert GoodRecord(db, b, parent.value); }
    assert b in db ==> GoodRecord(db, b, b);
    forall x | x in now ensures GoodRecord(now, b + 1, x) {
      if x in db {
        assert GoodRecord(db, b, x);
        var d := now[x].deployed;
        assert Distinct(d);
      } else {
        assert b in now && (parent.Some? ==> now[parent.value].deployed[|now[parent.value].deployed| - 1] == b);
      }
    }
    ForestIsOrdered(now, b + 1);
  }

  lemma ForestIsOrdered(db: Db, next: Id)
    requires Forest(db, next)
    ensures Ordered(db, next)
  {
    forall b | b in db ensures LaterOnly(db, next, b) { assert GoodRecord(db, next, b); }
  }

  /** Shortening b's lists keeps the order. */
  lemma ShorterListsKeepOrder(db: Db, next: Id, b: Id, record: Record)
    requires Ordered(db, next) && b in db
    requires forall c :: c in record.children ==> c in db[b].children
    requires forall c :: c in record.deployed ==> c in db[b].deployed
    ensures Ordered(db[b := record], next)
  {
    assert LaterOnly(db, next, b);
    var after := db[b := record];
    forall x | x in after ensures LaterOnly(after, next, x) { assert LaterOnly(db, next, x); }
  }

  lemma RemovalKeepsOrder(db: Db, next: Id, b: Id)
    requires Ordered(db, next)
    ensures Ordered(db - {b}, next)
  {
    forall x | x in db - {b} ensures LaterOnly(db - {b}, next, x) { assert LaterOnly(db, next, x); }
  }
}
