/**
 One items table, seen as each module sees it: the graph the sweep and the walks follow, the shelf the
 expansion reads, the title columns the locks guard. What scans write is nested by kind, so that in a
 catalogue of scanned items every expansion returns.
 */
module ItemsTable {
  import opened Options
  import opened Tables
  import opened Convergence
  import A = Answers
  import E = Expansion
  import G = ItemTree
  import K = Keys
  import L = TitleLocks
  import S = CatalogueStore
  import T = Titles

  // ---- the projections ----------------------------------------------------------------------------

  function TreeOf(items: map<nat, S.Row>): G.Tree {
    map id | id in items :: G.Node(items[id].item.kind, items[id].item.parent, items[id].item.deleted)
  }

  function ShelfOf(items: map<nat, S.Row>, weight: map<nat, int>, answers: map<nat, seq<nat>>): E.Shelf {
    E.Shelf(map id | id in items ::
              E.Row(items[id].item.kind, items[id].item.parent, items[id].item.index, if id in weight then weight[id] else 0),
            answers)
  }

  /** The metadata row `row` is the rest of the item: they share the title and what guards it. */
  predicate SameTitle<R>(item: Item<R>, row: L.Row) {
    && item.title == row.title && item.lockData == row.lockData && item.lockedFields == row.lockedFields
    && item.identified == row.providerIds.Some?
  }

  /** Each view shows the very columns its queries name. */
  lemma ViewsShow(items: map<nat, S.Row>, weight: map<nat, int>, answers: map<nat, seq<nat>>, id: nat)
    requires id in items
    ensures id in TreeOf(items) && (G.Live(TreeOf(items), id) <==> !items[id].item.deleted)
    ensures TreeOf(items)[id].kind == items[id].item.kind && TreeOf(items)[id].parent == items[id].item.parent
    ensures var shelf := ShelfOf(items, weight, answers);
            && id in shelf.items && shelf.items[id].kind == items[id].item.kind && shelf.items[id].parent == items[id].item.parent
            && shelf.items[id].index == items[id].item.index && (id in weight ==> shelf.items[id].weight == weight[id])
  {
  }

  /** A store whose foreign keys hold is a graph the ancestor walk accepts. */
  lemma StoreParentsExist(items: map<nat, S.Row>, rowOf: map<Ref, nat>)
    requires S.Named(items, rowOf)
    ensures G.ParentsExist(TreeOf(items))
  {
    forall id | id in items && items[id].item.parent.Some?
      ensures items[id].item.parent.value in items
    {
      assert S.Present(items, items[id].item.parent);
    }
  }

  /** The upsert of a refresh does to the title what a scan does under the locks. */
  lemma ScanIsRescan<R>(item: Item<R>, row: L.Row, parent: Option<R>, t: Scanned)
    requires SameTitle(item, row)
    ensures SameTitle(Upserted(Some(item), parent, t), L.Rescanned(row, t.title))
  {
  }

  // ---- what scans write is nested by kind -------------------------------------------------------

  function KindOf(n: K.Name): Kind {
    match n
    case MovieName(_) => Movie
    case SeriesName(_) => Series
    case SeasonName(_, _) => Season
    case EpisodeName(_, _, _) => Episode
  }

  function ParentKeyOf(n: K.Name): string {
    match n
    case MovieName(_) => ""
    case SeriesName(_) => ""
    case SeasonName(id, _) => K.SeriesKey(id)
    case EpisodeName(id, season, _) => K.SeasonKey(id, season)
  }

  predicate Scans(t: Scanned, n: K.Name) {
    t.key == K.KeyOf(n) && t.kind == KindOf(n) && t.parentKey == ParentKeyOf(n)
  }

  ghost predicate Titled(t: Scanned) {
    exists n :: Scans(t, n)
  }

  function Rank(kind: Kind): nat {
    match kind
    case Series => 2
    case Season => 1
    case _ => 0
  }

  ghost predicate KindsMatchKeys(items: map<Ref, Item<Ref>>) {
    forall n: K.Name :: Keyed(K.KeyOf(n)) in items ==> items[Keyed(K.KeyOf(n))].kind == KindOf(n)
  }

  ghost predicate ParentsPresent(items: map<Ref, Item<Ref>>) {
    forall r :: r in items && items[r].parent.Some? ==> items[r].parent.value in items
  }

  /** A folder below another item ranks below it. */
  ghost predicate FoldersNest(items: map<Ref, Item<Ref>>) {
    forall r :: r in items && E.IsFolder(items[r].kind) && items[r].parent.Some? && items[r].parent.value in items ==>
      Rank(items[r].kind) < Rank(items[items[r].parent.value].kind)
  }

  ghost predicate Nested(c: Catalogue) {
    KindsMatchKeys(c.items) && ParentsPresent(c.items) && FoldersNest(c.items)
  }

  lemma SaveKeepsKinds(c: Catalogue, t: Scanned, n: K.Name)
    requires KindsMatchKeys(c.items) && Scans(t, n)
    ensures KindsMatchKeys(SaveScanned(c, t).items)
    ensures Keyed(t.key) in c.items ==> c.items[Keyed(t.key)].kind == t.kind
  {
    forall m: K.Name | Keyed(K.KeyOf(m)) in SaveScanned(c, t).items
      ensures SaveScanned(c, t).items[Keyed(K.KeyOf(m))].kind == KindOf(m)
    {
      if K.KeyOf(m) == t.key {
        K.KeysAreInjective(m, n);
      }
    }
  }

  lemma SavedFolderNests(c: Catalogue, t: Scanned, n: K.Name)
    requires KindsMatchKeys(c.items) && Scans(t, n) && ParentFound(c, t) && E.IsFolder(t.kind) && ParentRef(t).Some?
    ensures Keyed(t.parentKey) in c.items && t.parentKey != t.key && Rank(t.kind) < Rank(c.items[Keyed(t.parentKey)].kind)
  {
    K.KeysAreNotEmpty(n);
    var parent := K.SeriesName(n.id);
    assert t.parentKey == K.KeyOf(parent);
    if t.parentKey == t.key {
      K.KeysAreInjective(parent, n);
    }
  }

  lemma SaveKeepsNested(c: Catalogue, t: Scanned)
    requires Nested(c) && Titled(t) && ParentFound(c, t)
    ensures Nested(SaveScanned(c, t))
  {
    var n :| Scans(t, n);
    var r0, d := Keyed(t.key), SaveScanned(c, t);
    SaveKeepsKinds(c, t, n);
    assert d.items[r0].kind == t.kind && d.items[r0].parent == ParentRef(t);
    forall r | r in d.items && E.IsFolder(d.items[r].kind) && d.items[r].parent.Some? && d.items[r].parent.value in d.items
      ensures Rank(d.items[r].kind) < Rank(d.items[d.items[r].parent.value].kind)
    {
      if r == r0 {
        SavedFolderNests(c, t, n);
      } else {
        assert d.items[r] == c.items[r] && c.items[r].parent.value in c.items;
      }
    }
  }

  // ---- over whole runs ----------------------------------------------------------------------------

  ghost predicate AllTitled(rf: Refresh) {
    forall i :: 0 <= i < |rf.titles| ==> Titled(rf.titles[i])
  }

  /** A job that has found its parent still finds it: no statement of a refresh deletes an item. */
  ghost predicate FoundStay(rf: Refresh, w: World) {
    |w.phase| == |rf.titles| && forall i :: 0 <= i < |rf.titles| && w.phase[i] == Found ==> ParentFound(w.c, rf.titles[i])
  }

  lemma ApplyKeepsNested(rf: Refresh, w: World, e: Event)
    requires AllTitled(rf) && FoundStay(rf, w) && Nested(w.c)
    ensures FoundStay(rf, Apply(rf, w, e)) && Nested(Apply(rf, w, e).c)
  {
    if e.job < |rf.titles| {
      var i := e.job;
      assert Titled(rf.titles[i]);
      if e.Save? && w.phase[i] == Found {
        SaveKeepsNested(w.c, rf.titles[i]);
      }
      if e.FileIt? {
        SourcesTouchOnlyFiles(w.c, rf.source, KeyOf(rf, i), rf.titles[i].files);
      }
    }
  }

  /** Every run of a refresh keeps folders nested by kind. */
  lemma {:induction false} RunsKeepNested(c: Catalogue, rf: Refresh, es: seq<Event>)
    requires AllTitled(rf) && Nested(c)
    ensures FoundStay(rf, Run(rf, Begin(c, rf), es)) && Nested(Run(rf, Begin(c, rf), es).c)
  {
    if es != [] {
      RunsKeepNested(c, rf, es[..|es| - 1]);
      ApplyKeepsNested(rf, Run(rf, Begin(c, rf), es[..|es| - 1]), es[|es| - 1]);
    }
  }

  lemma OriginScans(a: T.About, s: T.Show, o: A.Origin, x: Scanned)
    requires A.From(a, s, o, x)
    ensures Scans(x, A.NameOf(a, o))
  {
  }

  /** Whatever Sonarr answers, its titles are of that form. */
  lemma SeriesAreTitled(source: T.R.Source, tagged: seq<int> -> bool, shows: seq<T.Show>, rf: Refresh)
    requires T.Listed(source, tagged, shows, rf.titles)
    ensures AllTitled(rf)
  {
    forall i | 0 <= i < |rf.titles|
      ensures Titled(rf.titles[i])
    {
      var k, o := A.ListedFrom(source, tagged, shows, rf.titles, rf.titles[i]);
      OriginScans(T.AboutShow(source, tagged, shows[k]), shows[k], o, rf.titles[i]);
    }
  }

  lemma MoviesAreTitled(source: T.R.Source, tagged: seq<int> -> bool, movies: seq<T.RadarrMovie>, rf: Refresh)
    requires rf.titles == T.MoviesOf(source, tagged, movies)
    ensures AllTitled(rf)
  {
    forall i | 0 <= i < |rf.titles|
      ensures Titled(rf.titles[i])
    {
      var k := A.MoviesFrom(source, tagged, movies, rf.titles[i]);
      assert Scans(rf.titles[i], K.MovieName(movies[k].tmdbId));
    }
  }

  // ---- so expansions return -----------------------------------------------------------------------

  lemma FolderRanksBelow(items: map<nat, S.Row>, rowOf: map<Ref, nat>, view: map<Ref, Item<Ref>>, f: nat, c: nat)
    requires S.Named(items, rowOf) && S.ItemsShown(items, rowOf, view) && FoldersNest(view)
    requires c in items && items[c].item.parent == Some(f) && E.IsFolder(items[c].item.kind)
    ensures f in items && Rank(items[c].item.kind) < Rank(items[f].item.kind)
  {
    assert S.Present(items, items[c].item.parent);
    var r, p := S.RefOf(items, c), S.RefOf(items, f);
    assert r in view && view[r] == S.Shown(items, items[rowOf[r]].item) && rowOf[r] == c;
    assert p in view && view[p] == S.Shown(items, items[rowOf[p]].item) && rowOf[p] == f;
    assert view[r].parent == Some(p);
  }

  /** On a store whose folders are nested by kind every expansion returns, whatever is asked for. */
  lemma NestedStoreReturns(items: map<nat, S.Row>, rowOf: map<Ref, nat>, view: map<Ref, Item<Ref>>,
                           weight: map<nat, int>, answers: map<nat, seq<nat>>, ids: seq<nat>)
    requires S.Named(items, rowOf) && S.ItemsShown(items, rowOf, view) && FoldersNest(view)
    requires ShelfOf(items, weight, answers).Answered()
    ensures E.ReturnsFrom(ShelfOf(items, weight, answers), ids)
  {
    var s := ShelfOf(items, weight, answers);
    var height: nat -> nat := id => if id in items then 1 + Rank(items[id].item.kind) else 1;
    forall f: nat, c | s.FolderRow(f) && height(f) > 0 && c in s.Kids(f) && s.FolderRow(c)
      ensures 0 < height(c) < height(f)
    {
      FolderRanksBelow(items, rowOf, view, f, c);
    }
    assert s.Graded(height) && s.Covers(height, ids);
    E.HeightsExistIffReturns(s, ids);
  }
}
