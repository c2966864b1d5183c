/**
 The tables as the database holds them: item rows have random identifiers, and files, memberships
 and children refer to those. Each method is one statement or job of the service and is proved to have
 the effect the Tables module gives it on the rows' natural names.
 */
module CatalogueStore {
  import opened Options
  import opened Tables

  datatype Row = Row(key: Option<string>, item: Item<nat>)

  function RefOf(items: map<nat, Row>, id: nat): Ref
    requires id in items
  {
    match items[id].key
    case Some(key) => Keyed(key)
    case None => Keyless(id)
  }

  predicate Present(items: map<nat, Row>, parent: Option<nat>) {
    parent.Some? ==> parent.value in items
  }

  /** An item row with its parent named rather than numbered. */
  function Shown(items: map<nat, Row>, item: Item<nat>): Item<Ref>
    requires Present(items, item.parent)
  {
    Item(if item.parent.Some? then Some(RefOf(items, item.parent.value)) else None,
         item.kind, item.title, item.index, item.parentIndex, item.modified, item.deleted,
         item.lockData, item.lockedFields, item.identified)
  }

  function ShownFile(items: map<nat, Row>, f: File<nat>): File<Ref>
    requires f.item in items
  {
    File(RefOf(items, f.item), f.source, f.name, f.modified, f.probed)
  }

  /** Keys are unique, parents exist, and rowOf inverts RefOf. */
  ghost predicate Named(items: map<nat, Row>, rowOf: map<Ref, nat>) {
    && (forall r :: r in rowOf ==> rowOf[r] in items && RefOf(items, rowOf[r]) == r)
    && (forall id :: id in items ==> RefOf(items, id) in rowOf && rowOf[RefOf(items, id)] == id)
    && (forall id :: id in items ==> Present(items, items[id].item.parent))
  }

  ghost predicate ItemsShown(items: map<nat, Row>, rowOf: map<Ref, nat>, view: map<Ref, Item<Ref>>)
    requires Named(items, rowOf)
  {
    view.Keys == rowOf.Keys && forall r :: r in view ==> view[r] == Shown(items, items[rowOf[r]].item)
  }

  ghost predicate FilesShown(items: map<nat, Row>, files: map<string, File<nat>>, view: map<string, File<Ref>>) {
    view.Keys == files.Keys && forall p :: p in files ==> files[p].item in items && view[p] == ShownFile(items, files[p])
  }

  ghost predicate MembersShown(items: map<nat, Row>, rowOf: map<Ref, nat>, members: set<Member<nat>>, view: set<Member<Ref>>)
    requires Named(items, rowOf)
  {
    && (forall m :: m in members ==> m.item in items && Member(m.library, RefOf(items, m.item), m.source) in view)
    && (forall m :: m in view ==> m.item in rowOf && Member(m.library, rowOf[m.item], m.source) in members)
  }

  /** Writing one row under its own key keeps every name. */
  lemma WriteKeepsNames(items: map<nat, Row>, rowOf: map<Ref, nat>, id: nat, key: string, row: Item<nat>)
    requires Named(items, rowOf) && Present(items, row.parent)
    requires id in items ==> items[id].key == Some(key)
    requires id !in items ==> Keyed(key) !in rowOf
    ensures Named(items[id := Row(Some(key), row)], rowOf[Keyed(key) := id])
    ensures forall other :: other in items ==> RefOf(items[id := Row(Some(key), row)], other) == RefOf(items, other)
  {
    var after, names := items[id := Row(Some(key), row)], rowOf[Keyed(key) := id];
    forall other | other in after
      ensures RefOf(after, other) in names && names[RefOf(after, other)] == other
    {
      if other != id {
        assert RefOf(items, other) in rowOf;
      }
    }
  }

  lemma WriteShowsItems(items: map<nat, Row>, rowOf: map<Ref, nat>, view: map<Ref, Item<Ref>>, id: nat, key: string, row: Item<nat>)
    requires Named(items, rowOf) && Present(items, row.parent) && ItemsShown(items, rowOf, view)
    requires id in items ==> items[id].key == Some(key)
    requires id !in items ==> Keyed(key) !in rowOf
    ensures var after, names := items[id := Row(Some(key), row)], rowOf[Keyed(key) := id];
            Named(after, names) && ItemsShown(after, names, view[Keyed(key) := Shown(items, row)])
  {
    WriteKeepsNames(items, rowOf, id, key, row);
    var after, names := items[id := Row(Some(key), row)], rowOf[Keyed(key) := id];
    forall r | r in names
      ensures view[Keyed(key) := Shown(items, row)][r] == Shown(after, after[names[r]].item)
    {
      if r != Keyed(key) {
        assert Present(items, items[rowOf[r]].item.parent);
      }
    }
  }

  lemma WriteKeepsRest(items: map<nat, Row>, rowOf: map<Ref, nat>, id: nat, key: string, row: Item<nat>,
                       files: map<string, File<nat>>, shownFiles: map<string, File<Ref>>,
                       members: set<Member<nat>>, shownMembers: set<Member<Ref>>)
    requires Named(items, rowOf) && Present(items, row.parent)
    requires id in items ==> items[id].key == Some(key)
    requires id !in items ==> Keyed(key) !in rowOf
    requires FilesShown(items, files, shownFiles) && MembersShown(items, rowOf, members, shownMembers)
    ensures var after, names := items[id := Row(Some(key), row)], rowOf[Keyed(key) := id];
            Named(after, names) && FilesShown(after, files, shownFiles) && MembersShown(after, names, members, shownMembers)
  {
    WriteKeepsNames(items, rowOf, id, key, row);
    assert Keyed(key) in rowOf ==> rowOf[Keyed(key)] == id;
  }

  lemma ClashShown(items: map<nat, Row>, rowOf: map<Ref, nat>, files: map<string, File<nat>>, view: map<string, File<Ref>>,
                   source: nat, item: nat, path: string)
    requires Named(items, rowOf) && FilesShown(items, files, view) && item in items
    ensures Clash(files, source, item, path) <==> Clash(view, source, RefOf(items, item), path)
  {
    forall q | q in files
      ensures files[q].item == item <==> view[q].item == RefOf(items, item)
    {
      assert rowOf[RefOf(items, files[q].item)] == files[q].item && rowOf[RefOf(items, item)] == item;
    }
  }

  /** A loop over the files that keeps the latest modification time. */
  method NewestOf(files: seq<ScannedFile>) returns (latest: Option<int>)
    ensures latest == Newest(files)
  {
    latest := None;
    for i := 0 to |files|
      invariant latest == Newest(files[..i])
    {
      assert files[..i + 1][..i] == files[..i];
      if latest.None? || files[i].modified > latest.value {
        latest := Some(files[i].modified);
      }
    }
    assert files[..|files|] == files;
  }

  lemma {:induction false} NewestIsTheMaximum(files: seq<ScannedFile>)
    ensures Newest(files).None? <==> files == []
    ensures files != [] ==> exists k :: 0 <= k < |files| && Newest(files) == Some(files[k].modified)
    ensures forall k :: 0 <= k < |files| ==> Newest(files).Some? && files[k].modified <= Newest(files).value
  {
    if files != [] {
      var n := |files| - 1;
      NewestIsTheMaximum(files[..n]);
      if Newest(files[..n]).Some? && !(files[n].modified > Newest(files[..n]).value) {
        var k :| 0 <= k < n && Newest(files[..n]) == Some(files[..n][k].modified);
        assert Newest(files) == Some(files[k].modified);
      } else {
        assert Newest(files) == Some(files[n].modified);
      }
      forall k | 0 <= k < |files|
        ensures files[k].modified <= Newest(files).value
      {
        if k < n {
          assert files[..n][k] == files[k];
        }
      }
    }
  }

  /** After i files the store `now` is where the loop stands, with `probes` enqueued. */
  ghost predicate SavedSoFar(from: Catalogue, now: Catalogue, source: nat, r: Ref, files: seq<ScannedFile>, i: nat, probes: seq<string>) {
    && i <= |files|
    && SaveSources(from, source, r, files) == SaveSources(now, source, r, files[i..])
    && ToProbe(from, source, r, files) == probes + ToProbe(now, source, r, files[i..])
  }

  lemma SavedRefused(from: Catalogue, now: Catalogue, source: nat, r: Ref, files: seq<ScannedFile>, i: nat, probes: seq<string>)
    requires SavedSoFar(from, now, source, r, files, i, probes) && i < |files|
    requires Tables.SaveSource(now, source, r, files[i]).None?
    ensures SaveSources(from, source, r, files) == (now, false) && ToProbe(from, source, r, files) == probes
  {
    assert files[i..][0] == files[i] && files[i..][1..] == files[i + 1..];
  }

  lemma SavedNext(from: Catalogue, now: Catalogue, next: Catalogue, source: nat, r: Ref, files: seq<ScannedFile>, i: nat,
                  before: seq<string>, probes: seq<string>)
    requires SavedSoFar(from, now, source, r, files, i, before) && i < |files|
    requires Tables.SaveSource(now, source, r, files[i]) == Some(next)
    requires probes == if NeedsProbe(next.files[files[i].path]) then before + [files[i].path] else before
    ensures SavedSoFar(from, next, source, r, files, i + 1, probes)
  {
    assert files[i..][0] == files[i] && files[i..][1..] == files[i + 1..];
  }

  predicate Identified(c: Catalogue, key: string) {
    Keyed(key) in c.items && c.items[Keyed(key)].identified
  }

  lemma ScanKeepsIdentified(c: Catalogue, t: Scanned)
    ensures Tables.SaveScanned(c, t).items[Keyed(t.key)].identified <==> Identified(c, t.key)
  {
  }

  class Store {
    var items: map<nat, Row>
    var files: map<string, File<nat>>
    var members: set<Member<nat>>

    /** The same tables by natural name, and the row each name stands for. */
    ghost var view: Catalogue
    ghost var rowOf: map<Ref, nat>

    /** Foreign keys and the unique key index hold, and the view is the tables' contents. */
    ghost predicate Valid()
      reads this
    {
      && Named(items, rowOf)
      && ItemsShown(items, rowOf, view.items)
      && FilesShown(items, files, view.files)
      && MembersShown(items, rowOf, members, view.members)
    }

    constructor ()
      ensures Valid() && view == Catalogue(map[], map[], {})
    {
      items, files, members := map[], map[], {};
      view, rowOf := Catalogue(map[], map[], {}), map[];
    }

    /** SELECT ... WHERE key = $1, whatever the row's state. */
    method ItemByKey(key: string) returns (id: Option<nat>)
      requires Valid()
      ensures id.None? <==> Keyed(key) !in rowOf
      ensures id.Some? ==> id.value in items && items[id.value].key == Some(key)
    {
      if row :| row in items && items[row].key == Some(key) {
        assert RefOf(items, row) == Keyed(key);
        return Some(row);
      }
      assert Keyed(key) in rowOf ==> items[rowOf[Keyed(key)]].key == Some(key);
      return None;
    }

    method ParentOf(key: string) returns (found: bool, parent: Option<nat>)
      requires Valid()
      ensures found <==> key == "" || Keyed(key) in view.items
      ensures found ==> Present(items, parent)
      ensures found && key == "" ==> parent == None
      ensures found && key != "" ==> parent.Some? && RefOf(items, parent.value) == Keyed(key)
    {
      if key == "" {
        return true, None;
      }
      parent := ItemByKey(key);
      found := parent.Some?;
    }

    /** Upsert by key. `drawn` is the identifier the database would draw for a new row. */
    method SaveScanned(parent: Option<nat>, t: Scanned, drawn: nat) returns (id: nat)
      requires Valid() && Present(items, parent) && drawn !in items
      requires ParentRef(t) == if parent.Some? then Some(RefOf(items, parent.value)) else None
      modifies this
      ensures Valid() && view == Tables.SaveScanned(old(view), t)
      ensures id in items && RefOf(items, id) == Keyed(t.key)
      ensures id in old(items) || id == drawn
      ensures old(items).Keys <= items.Keys
    {
      ghost var r := Keyed(t.key);
      var held := ItemByKey(t.key);
      id := if held.Some? then held.value else drawn;
      var row := Upserted(if held.Some? then Some(items[id].item) else None, parent, t);
      assert Shown(items, row) == Upserted(Get(view.items, r), ParentRef(t), t);
      WriteShowsItems(items, rowOf, view.items, id, t.key, row);
      WriteKeepsRest(items, rowOf, id, t.key, row, files, view.files, members, view.members);
      items := items[id := Row(Some(t.key), row)];
      rowOf := rowOf[r := id];
      view := Tables.SaveScanned(view, t);
    }

    /** Upsert by path; false is the violation of the unique index on (item_id, source_id). */
    method SaveSource(source: nat, item: nat, f: ScannedFile) returns (ok: bool)
      requires Valid() && item in items
      modifies this`files, this`view
      ensures Valid()
      ensures ok <==> Tables.SaveSource(old(view), source, RefOf(items, item), f).Some?
      ensures view == if ok then Tables.SaveSource(old(view), source, RefOf(items, item), f).value else old(view)
    {
      ghost var r := RefOf(items, item);
      ClashShown(items, rowOf, files, view.files, source, item, f.path);
      ok := !Clash(files, source, item, f.path);
      if ok {
        assert Get(files, f.path).Some? <==> Get(view.files, f.path).Some?;
        files := files[f.path := FileAt(Get(files, f.path), source, item, f)];
        view := Tables.SaveSource(view, source, r, f).value;
      }
    }

    method SaveMembership(library: nat, source: nat, item: nat)
      requires Valid() && item in items
      modifies this`members, this`view
      ensures Valid() && view == Tables.SaveMembership(old(view), library, source, RefOf(items, item))
    {
      members := members + {Member(library, item, source)};
      view := Tables.SaveMembership(view, library, source, RefOf(items, item));
    }

    method DeleteSourcesNotInPaths(source: nat, paths: seq<string>)
      requires Valid()
      modifies this`files, this`view
      ensures Valid() && view == PruneFiles(old(view), source, paths)
    {
      files := map p | p in files && !StaleFile(files[p], p, source, paths) :: files[p];
      view := PruneFiles(view, source, paths);
    }

    method DeleteMembershipNotInKeys(library: nat, source: nat, keys: seq<string>)
      requires Valid()
      modifies this`members, this`view
      ensures Valid() && view == PruneMembers(old(view), library, source, keys)
    {
      members := set m | m in members && !(
          && m.library == library && m.source == source
          && (|keys| > 0 ==> items[m.item].key.Some? && items[m.item].key.value !in keys)) :: m;
      view := PruneMembers(view, library, source, keys);
    }

    /** One file saved, and whether ffprobe has to look at it. */
    method SaveFile(source: nat, item: nat, f: ScannedFile) returns (ok: bool, probe: bool)
      requires Valid() && item in items
      modifies this`files, this`view
      ensures Valid()
      ensures ok <==> Tables.SaveSource(old(view), source, RefOf(items, item), f).Some?
      ensures ok ==> view == Tables.SaveSource(old(view), source, RefOf(items, item), f).value
      ensures !ok ==> view == old(view)
      ensures probe <==> ok && NeedsProbe(view.files[f.path])
    {
      ok := SaveSource(source, item, f);
      probe := ok && NeedsProbe(files[f.path]);
    }

    /** The loop over a title's files, left at the first one the database refuses. */
    method SaveFiles(source: nat, item: nat, listed: seq<ScannedFile>) returns (ok: bool, probes: seq<string>)
      requires Valid() && item in items
      modifies this`files, this`view
      ensures Valid() && (view, ok) == SaveSources(old(view), source, RefOf(items, item), listed)
      ensures probes == ToProbe(old(view), source, RefOf(items, item), listed)
    {
      ghost var r, from := RefOf(items, item), view;
      probes := [];
      for i := 0 to |listed|
        invariant Valid() && r == RefOf(items, item) && SavedSoFar(from, view, source, r, listed, i, probes)
      {
        ghost var now, before := view, probes;
        var probe;
        ok, probe := SaveFile(source, item, listed[i]);
        if !ok {
          SavedRefused(from, now, source, r, listed, i, probes);
          return;
        }
        if probe {
          probes := probes + [listed[i].path];
        }
        SavedNext(from, now, view, source, r, listed, i, before, probes);
      }
      ok := true;
    }

    /** The upsert, and whether the row it leaves names no provider yet. */
    method ScanItem(parent: Option<nat>, t: Scanned, drawn: nat) returns (id: nat, unidentified: bool)
      requires Valid() && Present(items, parent) && drawn !in items
      requires ParentRef(t) == if parent.Some? then Some(RefOf(items, parent.value)) else None
      modifies this
      ensures Valid() && view == Tables.SaveScanned(old(view), t)
      ensures id in items && RefOf(items, id) == Keyed(t.key)
      ensures unidentified <==> !Identified(old(view), t.key)
    {
      ScanKeepsIdentified(view, t);
      id := SaveScanned(parent, t, drawn);
      unidentified := !items[id].item.identified;
    }

    /** One attempt of the job for one title, and the jobs it enqueues: files to probe, the item to identify. */
    method RefreshItem(library: nat, source: nat, t: Scanned, drawn: nat) returns (outcome: Outcome, probes: seq<string>, identify: bool)
      requires Valid() && drawn !in items
      modifies this
      ensures Valid()
      ensures (view, outcome) == Tables.RefreshItem(old(view), library, source, t)
      ensures probes == if outcome.MissingParent? then [] else ToProbe(Tables.SaveScanned(old(view), t), source, Keyed(t.key), t.files)
      ensures identify <==> outcome.Written? && !Identified(old(view), t.key)
    {
      probes, identify := [], false;
      var found, parent := ParentOf(t.parentKey);
      if !found {
        return MissingParent, probes, identify;
      }
      var id, unidentified := ScanItem(parent, t, drawn);
      var ok;
      ok, probes := SaveFiles(source, id, t.files);
      if !ok {
        return DuplicateFile, probes, identify;
      }
      identify := unidentified;
      if t.tagged {
        SaveMembership(library, source, id);
      }
      outcome := Written;
    }

    /** The refresh job of one library and source: prune, then enqueue one job a title. */
    method Refresh(library: nat, source: nat, titles: seq<Scanned>) returns (enqueued: seq<Scanned>)
      requires Valid()
      modifies this`files, this`members, this`view
      ensures Valid() && view == Prune(old(view), library, source, titles)
      ensures enqueued == titles
    {
      var paths: seq<string>, keys: seq<string> := [], [];
      for i := 0 to |titles|
        invariant paths == Paths(titles[..i]) && keys == TaggedKeys(titles[..i])
      {
        assert titles[..i + 1][..i] == titles[..i];
        if titles[i].tagged {
          keys := keys + [titles[i].key];
        }
        var before := paths;
        for k := 0 to |titles[i].files|
          invariant paths == before + FilePaths(titles[i].files)[..k]
        {
          paths := paths + [titles[i].files[k].path];
        }
      }
      assert titles[..|titles|] == titles;
      DeleteSourcesNotInPaths(source, paths);
      DeleteMembershipNotInKeys(library, source, keys);
      enqueued := [];
      for i := 0 to |titles|
        invariant enqueued == titles[..i]
      {
        enqueued := enqueued + [titles[i]];
      }
    }
  }
}
