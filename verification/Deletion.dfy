/**
 Deleting an item. The service deletes the rows of the live subtree table by table; the foreign keys then
 cascade from the deleted items to every child row, live or not, and to whatever refers to those.
 */
module Deletion {
  import opened Options
  import opened Tables
  import opened ItemTree
  import opened ItemGraph

  /** Rows that refer to an item, by row identifier. */
  type Owned = map<nat, nat>

  ghost predicate Refers(rows: Owned, targets: set<nat>) {
    forall row :: row in rows ==> rows[row] in targets
  }

  function Without(rows: Owned, gone: set<nat>): Owned {
    map row | row in rows && rows[row] !in gone :: rows[row]
  }

  ghost function Removed(items: Tree, root: nat): (s: set<nat>)
    ensures forall x :: x in s <==> x in items && Reaches(items, All, root, x)
  {
    set x | x in items && Reaches(items, All, root, x)
  }

  /** The live part of a subtree is part of the whole. */
  lemma LiveReachesAll(items: Tree, a: nat, x: nat)
    requires Reaches(items, LiveOnly, a, x)
    ensures Reaches(items, All, a, x)
  {
    var path :| PathBetween(items, LiveOnly, path, a, x);
    forall k | 0 <= k < |path| - 1
      ensures Step(items, All, path[k], path[k + 1])
    {
      assert Step(items, LiveOnly, path[k], path[k + 1]);
    }
    assert PathBetween(items, All, path, a, x);
  }

  /** Streams whose file belongs to an item that stays. */
  function StreamsWithout(streams: Owned, sources: Owned, gone: set<nat>): Owned {
    map row | row in streams && streams[row] in sources && sources[streams[row]] !in gone :: streams[row]
  }

  ghost predicate References(items: Tree, sources: Owned, images: Owned, userData: Owned, streams: Owned) {
    && ParentsExist(items)
    && Refers(sources, items.Keys) && Refers(images, items.Keys) && Refers(userData, items.Keys)
    && Refers(streams, sources.Keys)
  }

  lemma RemovalKeepsReferences(items: Tree, root: nat, sources: Owned, images: Owned, userData: Owned, streams: Owned)
    requires References(items, sources, images, userData, streams)
    ensures var gone := Removed(items, root);
            References(items - gone, Without(sources, gone), Without(images, gone), Without(userData, gone), StreamsWithout(streams, sources, gone))
  {
    var gone := Removed(items, root);
    forall id | id in items - gone && items[id].parent.Some?
      ensures items[id].parent.value in items - gone
    {
      if items[id].parent.value in gone {
        ReachesChild(items, All, root, items[id].parent.value, id);
      }
    }
  }

  /** Rows already dropped for part of the items do not matter to dropping them for all. */
  lemma DroppingTwice(rows: Owned, keys: set<nat>, some: set<nat>, gone: set<nat>)
    requires Refers(rows, keys) && some * keys <= gone
    ensures Without(Without(rows, some), gone) == Without(rows, gone)
  {
    forall row | row in rows
      ensures rows[row] in some ==> rows[row] in gone
    {
    }
  }

  lemma DroppingStreamsTwice(streams: Owned, sources: Owned, keys: set<nat>, some: set<nat>, gone: set<nat>)
    requires Refers(sources, keys) && Refers(streams, sources.Keys) && some * keys <= gone
    ensures StreamsWithout(StreamsWithout(streams, sources, some), Without(sources, some), gone) == StreamsWithout(streams, sources, gone)
  {
    forall row | row in streams
      ensures sources[streams[row]] in some ==> sources[streams[row]] in gone
    {
    }
  }

  /** ON DELETE CASCADE on parent_id: children of deleted rows, round after round. */
  method Cascade(items: Tree, root: nat, ids: set<nat>) returns (gone: set<nat>)
    requires root in ids && forall x :: x in ids ==> Reaches(items, All, root, x)
    ensures gone * items.Keys == Removed(items, root)
  {
    var frontier := ids;
    gone := ids;
    while frontier != {}
      invariant root in gone && frontier <= gone
      invariant forall x :: x in gone ==> Reaches(items, All, root, x)
      invariant forall p, c :: p in gone - frontier && Step(items, All, p, c) ==> c in gone
      decreases items.Keys - gone, frontier
    {
      var children := set c | c in items && items[c].parent.Some? && items[c].parent.value in frontier && c !in gone;
      forall c | c in children
        ensures Reaches(items, All, root, c)
      {
        ReachesChild(items, All, root, items[c].parent.value, c);
      }
      if children != {} {
        var c :| c in children;
        assert c in items.Keys - gone;
      }
      gone, frontier := gone + children, children;
    }
    ClosedIsReached(items, All, root, gone);
  }

  class Database {
    var items: Tree
    /** item_sources, images and user_item_data by the item they belong to. */
    var sources: Owned
    var images: Owned
    var userData: Owned
    /** media_streams by the item_sources row they belong to. */
    var streams: Owned

    ghost predicate Valid()
      reads this
    {
      References(items, sources, images, userData, streams)
    }

    /** DELETE FROM items, with every constraint that cascades from it. */
    method DeleteItems(root: nat, ids: set<nat>)
      requires Valid() && root in ids && forall x :: x in ids ==> Reaches(items, All, root, x)
      modifies this
      ensures Valid()
      ensures items == old(items) - Removed(old(items), root)
      ensures sources == Without(old(sources), Removed(old(items), root))
      ensures images == Without(old(images), Removed(old(items), root))
      ensures userData == Without(old(userData), Removed(old(items), root))
      ensures streams == StreamsWithout(old(streams), old(sources), Removed(old(items), root))
    {
      var gone := Cascade(items, root, ids);
      RemovalKeepsReferences(items, root, sources, images, userData, streams);
      gone := gone * items.Keys;
      streams := StreamsWithout(streams, sources, gone);
      sources := Without(sources, gone);
      images := Without(images, gone);
      userData := Without(userData, gone);
      items := items - gone;
    }

    /** The service's own deletes: streams of the items' files, the files, images and user data. */
    method DropRows(ids: set<nat>)
      requires Valid()
      modifies this`sources, this`images, this`userData, this`streams
      ensures Valid()
      ensures sources == Without(old(sources), ids) && images == Without(old(images), ids)
      ensures userData == Without(old(userData), ids) && streams == StreamsWithout(old(streams), old(sources), ids)
    {
      var files := set row | row in sources && sources[row] in ids;
      if files != {} {
        assert Without(streams, files) == StreamsWithout(streams, sources, ids);
        streams := Without(streams, files);
        assert (map row | row in sources && row !in files :: sources[row]) == Without(sources, ids);
        sources := map row | row in sources && row !in files :: sources[row];
      } else {
        assert forall row :: row in sources && sources[row] in ids ==> row in files;
        NothingToDrop(streams, sources, ids);
      }
      images := Without(images, ids);
      userData := Without(userData, ids);
    }

    /** The live subtree's rows are dropped table by table, then its items; the rest cascades. */
    method DeleteItem(root: nat)
      requires Valid()
      modifies this
      ensures Valid()
      ensures items == old(items) - Removed(old(items), root)
      ensures sources == Without(old(sources), Removed(old(items), root))
      ensures images == Without(old(images), Removed(old(items), root))
      ensures userData == Without(old(userData), Removed(old(items), root))
      ensures streams == StreamsWithout(old(streams), old(sources), Removed(old(items), root))
    {
      var listed := Subtree(items, root);
      var ids := Elements(listed);
      LiveSubtreeGoes(items, root, ids);
      ghost var gone := Removed(items, root);
      DroppingTwice(sources, items.Keys, ids, gone);
      DroppingTwice(images, items.Keys, ids, gone);
      DroppingTwice(userData, items.Keys, ids, gone);
      DroppingStreamsTwice(streams, sources, items.Keys, ids, gone);
      DropRows(ids);
      DeleteItems(root, ids);
    }
  }

  lemma NothingToDrop(streams: Owned, sources: Owned, ids: set<nat>)
    requires Refers(streams, sources.Keys) && forall row :: row in sources ==> sources[row] !in ids
    ensures StreamsWithout(streams, sources, ids) == streams && Without(sources, ids) == sources
  {
  }

  lemma LiveSubtreeGoes(items: Tree, root: nat, ids: set<nat>)
    requires forall x :: x in ids <==> Reaches(items, LiveOnly, root, x)
    ensures root in ids && ids * items.Keys <= Removed(items, root)
    ensures forall x :: x in ids ==> Reaches(items, All, root, x)
  {
    ReachesItself(items, LiveOnly, root);
    forall x | x in ids
      ensures Reaches(items, All, root, x)
    {
      LiveReachesAll(items, root, x);
    }
  }

  // ---- who else is hit ------------------------------------------------------------------------

  /** Some item the live subtree does not hold hangs from it, soft-deleted. */
  ghost predicate HidesDeleted(items: Tree, root: nat) {
    exists p, c :: Reaches(items, LiveOnly, root, p) && IsChild(items, c, p) && !Reaches(items, LiveOnly, root, c)
  }

  /** The deletion takes exactly the live subtree when no soft-deleted item hangs from it, and more otherwise. */
  lemma TakesOnlyTheLiveSubtreeIff(items: Tree, root: nat)
    requires root in items
    ensures (forall x :: x in Removed(items, root) <==> Reaches(items, LiveOnly, root, x)) <==> !HidesDeleted(items, root)
    ensures HidesDeleted(items, root) <==> exists p, c :: Reaches(items, LiveOnly, root, p) && IsChild(items, c, p) && c != root && items[c].deleted
  {
    if HidesDeleted(items, root) {
      var p, c :| Reaches(items, LiveOnly, root, p) && IsChild(items, c, p) && !Reaches(items, LiveOnly, root, c);
      LiveReachesAll(items, root, p);
      ReachesChild(items, All, root, p, c);
      assert c in Removed(items, root);
      if Live(items, c) {
        ReachesChild(items, LiveOnly, root, p, c);
      }
      ReachesItself(items, LiveOnly, root);
      assert IsChild(items, c, p) && c != root && items[c].deleted;
    } else {
      var live := set x | x in items && Reaches(items, LiveOnly, root, x);
      ReachesItself(items, LiveOnly, root);
      forall x | x in live
        ensures Reaches(items, All, root, x)
      {
        LiveReachesAll(items, root, x);
      }
      ClosedIsReached(items, All, root, live);
      forall x | Reaches(items, LiveOnly, root, x)
        ensures x in items
      {
        ReachedExists(items, root, x);
      }
    }
    forall p, c | Reaches(items, LiveOnly, root, p) && IsChild(items, c, p) && c != root && items[c].deleted
      ensures HidesDeleted(items, root)
    {
      DeadIsUnreached(items, root, c);
    }
  }

  lemma ReachedExists(items: Tree, root: nat, x: nat)
    requires Reaches(items, LiveOnly, root, x)
    ensures x == root || Live(items, x)
  {
    var path :| PathBetween(items, LiveOnly, path, root, x);
    if |path| > 1 {
      assert Step(items, LiveOnly, path[|path| - 2], path[|path| - 1]);
    }
  }

  lemma DeadIsUnreached(items: Tree, root: nat, c: nat)
    requires c in items && items[c].deleted && c != root
    ensures !Reaches(items, LiveOnly, root, c)
  {
    if Reaches(items, LiveOnly, root, c) {
      ReachedExists(items, root, c);
    }
  }

  /** Every row of an item outside the live subtree outlives the deletion. */
  ghost predicate SparesOthers(items: Tree, root: nat, rows: Owned) {
    forall row :: row in rows && !Reaches(items, LiveOnly, root, rows[row]) ==> row in Without(rows, Removed(items, root))
  }

  /** Whatever files, images or watch state there is, other items keep theirs exactly when nothing soft-deleted hangs below. */
  lemma OthersKeepTheirRowsIff(items: Tree, root: nat)
    requires root in items
    ensures (forall rows: Owned :: Refers(rows, items.Keys) ==> SparesOthers(items, root, rows)) <==> !HidesDeleted(items, root)
  {
    TakesOnlyTheLiveSubtreeIff(items, root);
    if HidesDeleted(items, root) {
      var p, c :| Reaches(items, LiveOnly, root, p) && IsChild(items, c, p) && !Reaches(items, LiveOnly, root, c);
      LiveReachesAll(items, root, p);
      ReachesChild(items, All, root, p, c);
      var rows: Owned := map[0 := c];
      assert 0 in rows && 0 !in Without(rows, Removed(items, root));
      assert Refers(rows, items.Keys) && !SparesOthers(items, root, rows);
    }
  }

  /** A season deleted while one swept episode remains under it: the episode's watch state goes too. */
  lemma SweptEpisodeLosesItsWatchState(season: nat, episode: nat, row: nat)
    requires season != episode
    ensures var items: Tree := map[season := Node(Season, None, false), episode := Node(Episode, Some(season), true)];
            && !Reaches(items, LiveOnly, season, episode)
            && Without(map[row := episode], Removed(items, season)) == map[]
  {
    var items: Tree := map[season := Node(Season, None, false), episode := Node(Episode, Some(season), true)];
    DeadIsUnreached(items, season, episode);
    ReachesItself(items, All, season);
    ReachesChild(items, All, season, season, episode);
    assert episode in Removed(items, season);
  }
}
