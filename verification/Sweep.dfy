/** Marking unreachable items deleted: items without a file, then folders with nothing live beneath them. */
module Sweep {
  import opened Options
  import opened Tables
  import opened ItemTree

  predicate Playable(kind: Kind) {
    kind == Movie || kind == Episode
  }

  predicate SweptFolder(kind: Kind) {
    kind == Series || kind == Season
  }

  /** The WHERE clause of the first statement. */
  predicate Fileless(items: Tree, held: set<nat>, disturbed: seq<nat>, id: nat) {
    Live(items, id) && id in disturbed && Playable(items[id].kind) && id !in held
  }

  predicate HasChildren(items: Tree, id: nat) {
    exists c :: c in items && IsChild(items, c, id)
  }

  /** The WHERE clause of the looped statement: a live folder that has children and no live one. */
  predicate Childless(items: Tree, id: nat) {
    && Live(items, id) && SweptFolder(items[id].kind) && HasChildren(items, id)
    && !(exists c :: c in items && IsChild(items, c, id) && Live(items, c))
  }

  function MarkDeleted(items: Tree, gone: set<nat>): Tree {
    map id | id in items :: if id in gone then items[id].(deleted := true) else items[id]
  }

  /** Folder f falls with the set s: it has children and s holds them all. */
  predicate Falls(items: Tree, s: set<nat>, f: nat) {
    && f in items && SweptFolder(items[f].kind) && HasChildren(items, f)
    && forall c :: c in items && IsChild(items, c, f) ==> c in s
  }

  ghost predicate Closed(items: Tree, s: set<nat>) {
    forall f :: Falls(items, s, f) ==> f in s
  }

  /** The least set of items that contains base and every folder all of whose children it contains. */
  ghost predicate LeastClosed(items: Tree, base: set<nat>, s: set<nat>) {
    base <= s && Closed(items, s) && forall t :: base <= t && Closed(items, t) ==> s <= t
  }

  function SweepBase(items: Tree, held: set<nat>, disturbed: seq<nat>): set<nat> {
    set id | id in items && (items[id].deleted || Fileless(items, held, disturbed, id))
  }

  /** What SweepUnreachable does to the items table; a call with nothing disturbed does not even look at folders. */
  ghost predicate Swept(before: Tree, held: set<nat>, disturbed: seq<nat>, after: Tree) {
    if disturbed == [] then after == before
    else SameShape(before, after) && LeastClosed(before, SweepBase(before, held, disturbed), Dead(after))
  }

  /** Dead grew to contain the base, and to nothing a closed set could leave out. */
  ghost predicate Within(before: Tree, base: set<nat>, now: Tree) {
    SameShape(before, now) && base <= Dead(now) && forall t :: base <= t && Closed(before, t) ==> Dead(now) <= t
  }

  lemma ChildlessFalls(before: Tree, now: Tree, f: nat)
    requires SameShape(before, now)
    ensures Childless(now, f) <==> Falls(before, Dead(now), f) && f !in Dead(now)
  {
    if Falls(before, Dead(now), f) && f !in Dead(now) {
      var c :| c in before && IsChild(before, c, f);
      assert IsChild(now, c, f);
    }
    if Childless(now, f) {
      var c :| c in now && IsChild(now, c, f);
      assert IsChild(before, c, f);
      forall k | k in before && IsChild(before, k, f)
        ensures k in Dead(now)
      {
        assert IsChild(now, k, f);
      }
    }
  }

  lemma MarkStaysWithin(before: Tree, base: set<nat>, now: Tree, gone: set<nat>)
    requires Within(before, base, now)
    requires forall f :: f in gone ==> Childless(now, f)
    ensures Within(before, base, MarkDeleted(now, gone))
    ensures Dead(MarkDeleted(now, gone)) == Dead(now) + gone
  {
    assert Dead(MarkDeleted(now, gone)) == Dead(now) + gone;
    forall t | base <= t && Closed(before, t)
      ensures Dead(now) + gone <= t
    {
      forall f | f in gone
        ensures f in t
      {
        ChildlessFalls(before, now, f);
        assert Falls(before, t, f);
      }
    }
  }

  lemma QuietIsLeast(before: Tree, base: set<nat>, now: Tree)
    requires Within(before, base, now) && forall f :: !Childless(now, f)
    ensures LeastClosed(before, base, Dead(now))
  {
    forall f | Falls(before, Dead(now), f)
      ensures f in Dead(now)
    {
      ChildlessFalls(before, now, f);
    }
  }

  class Table {
    var items: Tree
    /** Items some item_sources row refers to. */
    var held: set<nat>

    method SweepUnreachable(disturbed: seq<nat>)
      modifies this`items
      ensures Swept(old(items), held, disturbed, items)
    {
      if |disturbed| == 0 {
        return;
      }
      ghost var before, base := items, SweepBase(items, held, disturbed);
      items := MarkDeleted(items, set id | id in items && Fileless(items, held, disturbed, id));
      assert Dead(items) == base;
      while true
        invariant Within(before, base, items)
        decreases items.Keys - Dead(items)
      {
        var gone := set f | f in items && Childless(items, f);
        if gone == {} {
          assert forall f :: Childless(items, f) ==> f in gone;
          QuietIsLeast(before, base, items);
          return;
        }
        MarkStaysWithin(before, base, items, gone);
        var f :| f in gone;
        assert f in items.Keys - Dead(items);
        items := MarkDeleted(items, gone);
      }
    }

    /** The sweep job: every live item is disturbed. */
    method Sweep()
      modifies this`items
      ensures exists everything :: Swept(old(items), held, everything, items) && forall id :: id in everything <==> Live(old(items), id)
      ensures forall f :: !Childless(items, f)
    {
      var everything: seq<nat> := [];
      var left := items.Keys - Dead(items);
      while left != {}
        invariant forall id :: Live(items, id) <==> id in left || id in everything
        decreases left
      {
        var id :| id in left;
        left, everything := left - {id}, everything + [id];
      }
      ghost var before := items;
      SweepUnreachable(everything);
      JobSweepsToTheFixpoint(before, held, everything, items);
    }
  }

  // ---- properties of the sweep ----------------------------------------------------------------

  lemma LeastIsUnique(items: Tree, base: set<nat>, s: set<nat>, t: set<nat>)
    requires LeastClosed(items, base, s) && LeastClosed(items, base, t)
    ensures s == t
  {
  }

  lemma SameDeadSameTree(before: Tree, a: Tree, b: Tree)
    requires SameShape(before, a) && SameShape(before, b) && Dead(a) == Dead(b)
    ensures a == b
  {
    forall id | id in before
      ensures a[id] == b[id]
    {
      assert id in Dead(a) <==> id in Dead(b);
    }
  }

  /** What the sweep deletes beyond its base is the least fixpoint, so nothing is left to delete. */
  lemma LeastLeavesNoChildless(before: Tree, base: set<nat>, after: Tree, f: nat)
    requires SameShape(before, after) && LeastClosed(before, base, Dead(after))
    ensures !Childless(after, f)
  {
    ChildlessFalls(before, after, f);
  }

  /** Called with nothing, the early return is the fixpoint exactly when no live folder is empty of live children. */
  lemma EarlyReturnIsRightIff(before: Tree, held: set<nat>, after: Tree)
    requires Swept(before, held, [], after)
    ensures LeastClosed(before, SweepBase(before, held, []), Dead(after)) <==> forall f :: !Childless(before, f)
  {
    var base := SweepBase(before, held, []);
    assert base == Dead(before);
    if forall f :: !Childless(before, f) {
      QuietIsLeast(before, base, before);
    }
    if LeastClosed(before, base, Dead(after)) {
      forall f
        ensures !Childless(before, f)
      {
        LeastLeavesNoChildless(before, base, after, f);
      }
    }
  }

  /** The job never notices the early return: its list is empty only when nothing lives, and then nothing falls. */
  lemma JobSweepsToTheFixpoint(before: Tree, held: set<nat>, everything: seq<nat>, after: Tree)
    requires Swept(before, held, everything, after) && (forall x :: x in everything <==> Live(before, x))
    ensures SameShape(before, after) && LeastClosed(before, SweepBase(before, held, everything), Dead(after))
    ensures forall f :: !Childless(after, f)
  {
    if everything == [] {
      forall f
        ensures !Childless(before, f)
      {
        assert f !in everything;
      }
      EarlyReturnIsRightIff(before, held, after);
    }
    forall f
      ensures !Childless(after, f)
    {
      LeastLeavesNoChildless(before, SweepBase(before, held, everything), after, f);
    }
  }

  /** Deleting one eligible folder at a time, in the order given. */
  ghost predicate OneByOne(items: Tree, order: seq<nat>) {
    order == [] || (Childless(items, order[0]) && OneByOne(MarkDeleted(items, {order[0]}), order[1..]))
  }

  function After(items: Tree, order: seq<nat>): Tree {
    if order == [] then items else After(MarkDeleted(items, {order[0]}), order[1..])
  }

  lemma {:induction false} OneByOneStaysWithin(before: Tree, base: set<nat>, now: Tree, order: seq<nat>)
    requires Within(before, base, now) && OneByOne(now, order)
    ensures Within(before, base, After(now, order))
  {
    if order != [] {
      MarkStaysWithin(before, base, now, {order[0]});
      OneByOneStaysWithin(before, base, MarkDeleted(now, {order[0]}), order[1..]);
    }
  }

  /** Confluence: however eligible folders are picked off one at a time, the sweep's result is reached. */
  lemma AnyOrderSweepsTheSame(before: Tree, held: set<nat>, disturbed: seq<nat>, after: Tree, order: seq<nat>)
    requires disturbed != [] && Swept(before, held, disturbed, after)
    requires var first := MarkDeleted(before, set id | id in before && Fileless(before, held, disturbed, id));
             OneByOne(first, order) && forall f :: !Childless(After(first, order), f)
    ensures After(MarkDeleted(before, set id | id in before && Fileless(before, held, disturbed, id)), order) == after
  {
    var base := SweepBase(before, held, disturbed);
    var first := MarkDeleted(before, set id | id in before && Fileless(before, held, disturbed, id));
    assert Dead(first) == base;
    OneByOneStaysWithin(before, base, first, order);
    QuietIsLeast(before, base, After(first, order));
    LeastIsUnique(before, base, Dead(after), Dead(After(first, order)));
    SameDeadSameTree(before, after, After(first, order));
  }

  lemma ShapeDecidesClosed(a: Tree, b: Tree, s: set<nat>)
    requires SameShape(a, b)
    ensures Closed(a, s) <==> Closed(b, s)
  {
    forall f
      ensures Falls(a, s, f) <==> Falls(b, s, f)
    {
      assert forall c :: IsChild(a, c, f) <==> IsChild(b, c, f);
    }
  }

  /** A second sweep of the same items is a no-op. */
  lemma SweepTwiceIsOnce(before: Tree, held: set<nat>, disturbed: seq<nat>, once: Tree, twice: Tree)
    requires Swept(before, held, disturbed, once) && Swept(once, held, disturbed, twice)
    ensures twice == once
  {
    if disturbed != [] {
      ShapeDecidesClosed(before, once, Dead(once));
      forall id | id in SweepBase(once, held, disturbed)
        ensures id in Dead(once)
      {
        if Fileless(once, held, disturbed, id) {
          assert id in before && (before[id].deleted || Fileless(before, held, disturbed, id));
          assert id in SweepBase(before, held, disturbed);
        }
      }
      assert SweepBase(once, held, disturbed) == Dead(once);
      SameDeadSameTree(once, once, twice);
    }
  }

  /** No deleted item has a live child. */
  ghost predicate NothingLiveUnderDead(items: Tree) {
    forall c, p :: Live(items, c) && IsChild(items, c, p) && p in items ==> Live(items, p)
  }

  /** The sweep keeps that exactly when no item it deletes for want of a file is left with a live child. */
  lemma SweepKeepsDeletionDownward(before: Tree, held: set<nat>, disturbed: seq<nat>, after: Tree)
    requires NothingLiveUnderDead(before) && Swept(before, held, disturbed, after)
    ensures NothingLiveUnderDead(after) <==>
            forall p, c :: Fileless(before, held, disturbed, p) && IsChild(before, c, p) ==> !Live(after, c)
  {
    if disturbed != [] {
      var base := SweepBase(before, held, disturbed);
      forall c, p | Live(after, c) && IsChild(after, c, p) && p in after && !Live(after, p)
        ensures Fileless(before, held, disturbed, p) && IsChild(before, c, p)
      {
        assert IsChild(before, c, p) && c !in Dead(after) && p in Dead(after);
        assert Live(before, c) by {
          assert c in before && c !in base;
        }
        if p !in base {
          SupportedUnlessBase(before, base, Dead(after), p);
        }
      }
      forall p, c | NothingLiveUnderDead(after) && Fileless(before, held, disturbed, p) && IsChild(before, c, p)
        ensures !Live(after, c)
      {
        assert p in base && p in Dead(after);
        assert c in after ==> IsChild(after, c, p);
      }
    }
  }

  /** What is in the least closed set but not in its base has all its children in the set. */
  lemma SupportedUnlessBase(items: Tree, base: set<nat>, s: set<nat>, p: nat)
    requires LeastClosed(items, base, s) && p in s && p !in base
    ensures Falls(items, s, p)
  {
    if !Falls(items, s, p) {
      var t := s - {p};
      forall f | Falls(items, t, f)
        ensures f in t
      {
        assert Falls(items, s, f);
      }
      assert base <= t && Closed(items, t);
      assert false;
    }
  }

  /** Movies and episodes have no children of their own, so for them the condition holds by itself. */
  lemma LeavesSweepSafely(before: Tree, held: set<nat>, disturbed: seq<nat>, after: Tree)
    requires NothingLiveUnderDead(before) && Swept(before, held, disturbed, after)
    requires forall p, c :: IsChild(before, c, p) && p in before ==> !Playable(before[p].kind)
    ensures NothingLiveUnderDead(after)
  {
    SweepKeepsDeletionDownward(before, held, disturbed, after);
  }

  /** After the job: an item with a file stays, a film without one goes, a folder stays iff childless or holding something live. */
  lemma SweepJobOutcome(before: Tree, held: set<nat>, everything: seq<nat>, after: Tree, id: nat)
    requires Swept(before, held, everything, after) && (forall x :: x in everything <==> Live(before, x))
    requires Live(before, id)
    ensures before[id].kind in {Movie, Episode} ==> (Live(after, id) <==> id in held)
    ensures before[id].kind in {Series, Season} ==>
              (Live(after, id) <==> (forall c :: c in before ==> before[c].parent != Some(id)) ||
                                    exists c :: c in before && before[c].parent == Some(id) && Live(after, c))
    ensures before[id].kind !in {Movie, Episode, Series, Season} ==> Live(after, id)
  {
    assert id in everything && everything != [];
    var base := SweepBase(before, held, everything);
    if id in base {
      assert Fileless(before, held, everything, id);
    } else if id in Dead(after) {
      SupportedUnlessBase(before, base, Dead(after), id);
    }
    if SweptFolder(before[id].kind) && Live(after, id) && HasChildren(before, id) {
      assert !Falls(before, Dead(after), id);
      var c :| c in before && IsChild(before, c, id) && c !in Dead(after);
      assert Live(after, c);
    }
  }
}
