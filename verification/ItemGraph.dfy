/**
 Walking the item graph downwards to delete a subtree and upwards to list ancestors. Parent links are
 whatever the table holds, cycles included.
 */
module ItemGraph {
  import opened Options
  import opened Tables
  import opened ItemTree

  /** Which children a walk follows: live ones, as queries do, or all, as the foreign key cascade does. */
  datatype Follow = LiveOnly | All

  predicate Step(items: Tree, follow: Follow, p: nat, c: nat) {
    IsChild(items, c, p) && (follow.LiveOnly? ==> Live(items, c))
  }

  ghost predicate Path(items: Tree, follow: Follow, path: seq<nat>) {
    path != [] && forall k :: 0 <= k < |path| - 1 ==> Step(items, follow, path[k], path[k + 1])
  }

  ghost predicate PathBetween(items: Tree, follow: Follow, path: seq<nat>, a: nat, x: nat) {
    Path(items, follow, path) && path[0] == a && path[|path| - 1] == x
  }

  ghost predicate Reaches(items: Tree, follow: Follow, a: nat, x: nat) {
    exists path :: PathBetween(items, follow, path, a, x)
  }

  ghost predicate ClosedDown(items: Tree, follow: Follow, s: set<nat>) {
    forall p, c :: p in s && Step(items, follow, p, c) ==> c in s
  }

  lemma ReachesItself(items: Tree, follow: Follow, a: nat)
    ensures Reaches(items, follow, a, a)
  {
    assert PathBetween(items, follow, [a], a, a);
  }

  lemma ReachesChild(items: Tree, follow: Follow, a: nat, p: nat, c: nat)
    requires Reaches(items, follow, a, p) && Step(items, follow, p, c)
    ensures Reaches(items, follow, a, c)
  {
    var path :| PathBetween(items, follow, path, a, p);
    assert PathBetween(items, follow, path + [c], a, c);
  }

  lemma {:induction false} PathStaysInside(items: Tree, follow: Follow, s: set<nat>, path: seq<nat>, k: nat)
    requires ClosedDown(items, follow, s) && Path(items, follow, path) && path[0] in s && k < |path|
    ensures path[k] in s
  {
    if k > 0 {
      PathStaysInside(items, follow, s, path, k - 1);
      assert Step(items, follow, path[k - 1], path[k]);
    }
  }

  /** A set of reached items that contains the root and is closed downwards is everything the root reaches. */
  lemma ClosedIsReached(items: Tree, follow: Follow, root: nat, s: set<nat>)
    requires root in s && ClosedDown(items, follow, s) && forall x :: x in s ==> Reaches(items, follow, root, x)
    ensures forall x :: x in s <==> Reaches(items, follow, root, x)
  {
    forall x | Reaches(items, follow, root, x)
      ensures x in s
    {
      var path :| PathBetween(items, follow, path, root, x);
      PathStaysInside(items, follow, s, path, |path| - 1);
    }
  }

  ghost predicate NoDuplicates(ids: seq<nat>) {
    forall j, k :: 0 <= j < k < |ids| ==> ids[j] != ids[k]
  }

  function Elements(ids: seq<nat>): set<nat> {
    set x | x in ids
  }

  /** A query answers each matching row once, in an order of its own. */
  method Listed(s: set<nat>) returns (ids: seq<nat>)
    ensures NoDuplicates(ids) && Elements(ids) == s
  {
    ids := [];
    var left := s;
    while left != {}
      invariant NoDuplicates(ids) && left !! Elements(ids) && Elements(ids) + left == s
      decreases left
    {
      var id :| id in left;
      left := left - {id};
      assert forall x :: x in ids + [id] <==> x in ids || x == id;
      ids := ids + [id];
    }
  }

  /** Breadth first through live children; the root itself is answered whatever its state. */
  method Subtree(items: Tree, root: nat) returns (ids: seq<nat>)
    ensures NoDuplicates(ids)
    ensures forall x :: x in ids <==> Reaches(items, LiveOnly, root, x)
  {
    ids := [root];
    var frontier := ids;
    ReachesItself(items, LiveOnly, root);
    while |frontier| > 0
      invariant root in ids && NoDuplicates(ids) && Elements(frontier) <= Elements(ids)
      invariant forall x :: x in ids ==> Reaches(items, LiveOnly, root, x)
      invariant forall p, c :: p in Elements(ids) - Elements(frontier) && Step(items, LiveOnly, p, c) ==> c in ids
      decreases items.Keys - Elements(ids), |frontier|
    {
      var found := set c | c in items && Live(items, c) && items[c].parent.Some? && items[c].parent.value in frontier && c !in ids;
      var children := Listed(found);
      forall c | c in found
        ensures Reaches(items, LiveOnly, root, c)
      {
        assert items[c].parent.value in Elements(frontier) && items[c].parent.value in Elements(ids);
        ReachesChild(items, LiveOnly, root, items[c].parent.value, c);
      }
      ghost var before := Elements(ids);
      assert forall x :: x in ids + children <==> x in before || x in found;
      assert children != [] ==> children[0] in Elements(children) && children[0] in items.Keys - before;
      forall j, k | 0 <= j < |ids| && 0 <= k < |children|
        ensures ids[j] != children[k]
      {
        assert children[k] in Elements(children);
      }
      ids := ids + children;
      assert Elements(ids) == before + found;
      frontier := children;
    }
    assert Elements(frontier) == {};
    ClosedIsReached(items, LiveOnly, root, Elements(ids));
  }

  // ---- ancestors ------------------------------------------------------------------------------

  /** What SELECT by id then the walk upwards can answer. */
  datatype Ancestry = NoItem | DeletedParent | Parents(ids: seq<nat>)

  function ParentOf(items: Tree, id: nat): Option<nat> {
    if id in items then items[id].parent else None
  }

  /** ids lists the parent of x, its parent, and so on: all live, none repeated, none of them x. */
  ghost predicate Climb(items: Tree, x: nat, ids: seq<nat>) {
    && (ids != [] ==> ParentOf(items, x) == Some(ids[0]))
    && (forall j, k :: 0 <= j < |ids| && 0 <= k < |ids| && k == j + 1 ==> ParentOf(items, ids[j]) == Some(ids[k]))
    && (forall k :: 0 <= k < |ids| ==> Live(items, ids[k]) && ids[k] != x)
    && NoDuplicates(ids)
  }

  function Top(x: nat, ids: seq<nat>): nat {
    if ids == [] then x else ids[|ids| - 1]
  }

  method Ancestors(items: Tree, x: nat) returns (r: Ancestry)
    requires ParentsExist(items)
    ensures r.NoItem? <==> x !in items
    ensures r.Parents? ==> Climb(items, x, r.ids)
    ensures r.Parents? ==> var up := ParentOf(items, Top(x, r.ids)); up.None? || up.value == x || up.value in r.ids
    ensures r.DeletedParent? ==>
              exists ids :: Climb(items, x, ids) && var up := ParentOf(items, Top(x, ids));
                            up.Some? && up.value != x && up.value !in ids && !Live(items, up.value)
  {
    if x !in items {
      return NoItem;
    }
    var parents: seq<nat>, seen, item := [], {x}, x;
    while items[item].parent.Some? && items[item].parent.value !in seen
      invariant item in items && item == Top(x, parents) && Climb(items, x, parents)
      invariant seen == {x} + Elements(parents) && seen <= items.Keys
      decreases items.Keys - seen
    {
      var parent := items[item].parent.value;
      if !Live(items, parent) {
        return DeletedParent;
      }
      assert parent in items.Keys - seen;
      assert Elements(parents + [parent]) == Elements(parents) + {parent};
      seen, parents, item := seen + {parent}, parents + [parent], parent;
    }
    return Parents(parents);
  }

  // ---- duality ----------------------------------------------------------------------------------

  lemma {:induction false} ClimbReaches(items: Tree, x: nat, ids: seq<nat>, k: nat)
    requires Climb(items, x, ids) && Live(items, x) && k < |ids|
    ensures Reaches(items, LiveOnly, ids[k], x)
    decreases k
  {
    var below := if k == 0 then x else ids[k - 1];
    assert ParentOf(items, below) == Some(ids[k]);
    assert Step(items, LiveOnly, ids[k], below);
    if k == 0 {
      ReachesItself(items, LiveOnly, x);
    } else {
      ClimbReaches(items, x, ids, k - 1);
    }
    var path :| PathBetween(items, LiveOnly, path, below, x);
    assert PathBetween(items, LiveOnly, [ids[k]] + path, ids[k], x);
  }

  lemma {:induction false} PathClimbs(items: Tree, s: set<nat>, path: seq<nat>, k: nat)
    requires Path(items, LiveOnly, path) && path[|path| - 1] in s && k < |path|
    requires forall y :: y in s && ParentOf(items, y).Some? ==> ParentOf(items, y).value in s
    ensures path[k] in s
    decreases |path| - k
  {
    if k < |path| - 1 {
      PathClimbs(items, s, path, k + 1);
      assert Step(items, LiveOnly, path[k], path[k + 1]);
      assert ParentOf(items, path[k + 1]) == Some(path[k]);
    }
  }

  /** When the climb from a live item succeeds it lists exactly the items whose subtree holds that item. */
  lemma AncestorsAreSubtreeRoots(items: Tree, x: nat, ids: seq<nat>, a: nat)
    requires Live(items, x) && Climb(items, x, ids) && a != x
    requires var up := ParentOf(items, Top(x, ids)); up.None? || up.value == x || up.value in ids
    ensures a in ids <==> Reaches(items, LiveOnly, a, x)
  {
    if a in ids {
      var k :| 0 <= k < |ids| && ids[k] == a;
      ClimbReaches(items, x, ids, k);
    }
    if Reaches(items, LiveOnly, a, x) {
      var path :| PathBetween(items, LiveOnly, path, a, x);
      var s := {x} + Elements(ids);
      forall y | y in s && ParentOf(items, y).Some?
        ensures ParentOf(items, y).value in s
      {
        if y != Top(x, ids) {
          if y == x {
            assert ParentOf(items, x) == Some(ids[0]) && ids[0] in s;
          } else {
            var k :| 0 <= k < |ids| && ids[k] == y;
            assert ParentOf(items, ids[k]) == Some(ids[k + 1]) && ids[k + 1] in s;
          }
        }
      }
      PathClimbs(items, s, path, 0);
    }
  }
}
