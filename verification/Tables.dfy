/**
 The three tables a library refresh writes, with rows named by their natural keys rather than
 by the random identifiers the database draws. Every function here is the effect of one SQL
 statement; CatalogueStore proves that the row-level statements refine them.
 */
module Tables {
  import opened Options

  datatype Kind = Movie | Series | Season | Episode | Playlist | Audio | AudioBook | Trailer | Video
                | Folder | CollectionFolder | BoxSet | PlaylistsFolder | UserRootFolder

  const LOCKED_NAME := "Name"

  /** The columns a scan may only write while nobody has claimed the title. */
  datatype Headline = Headline(name: string, sortName: string, year: Option<int>)

  /** An items row; R is how a row refers to another item. */
  datatype Item<+R> = Item(
    parent: Option<R>, kind: Kind, title: Headline, index: Option<int>, parentIndex: Option<int>,
    modified: Option<int>, deleted: bool, lockData: bool, lockedFields: seq<string>, identified: bool)

  /** An item_sources row; `probed` is what ffprobe wrote and no scan may touch. */
  datatype File<+R> = File(item: R, source: nat, name: string, modified: int, probed: Option<int>)

  datatype Member<+R> = Member(library: nat, item: R, source: nat)

  /** How an item is named once identifiers are forgotten: by its key, or by its row when it has none. */
  datatype Ref = Keyed(key: string) | Keyless(row: nat)

  datatype ScannedFile = ScannedFile(path: string, modified: int)

  datatype Scanned = Scanned(
    key: string, parentKey: string, tagged: bool, kind: Kind, title: Headline,
    index: Option<int>, parentIndex: Option<int>, files: seq<ScannedFile>)

  /** The whole state: `files` is indexed by path, its unique column. */
  datatype Catalogue = Catalogue(items: map<Ref, Item<Ref>>, files: map<string, File<Ref>>, members: set<Member<Ref>>)

  function Get<K, V>(m: map<K, V>, k: K): Option<V> {
    if k in m then Some(m[k]) else None
  }

  /** The condition of the CASE expression that guards the title columns of the upsert. */
  predicate Free(identified: bool, lockData: bool, lockedFields: seq<string>) {
    !identified && !lockData && LOCKED_NAME !in lockedFields
  }

  predicate Unclaimed<R>(item: Item<R>) {
    Free(item.identified, item.lockData, item.lockedFields)
  }

  function Newest(files: seq<ScannedFile>): Option<int> {
    if files == [] then None
    else
      var last := files[|files| - 1].modified;
      match Newest(files[..|files| - 1])
      case None => Some(last)
      case Some(latest) => Some(if last > latest then last else latest)
  }

  /** INSERT ... ON CONFLICT (key) DO UPDATE, seen from the one row it lands on. */
  function Upserted<R>(kept: Option<Item<R>>, parent: Option<R>, t: Scanned): Item<R> {
    match kept
    case None =>
      Item(parent, t.kind, t.title, t.index, t.parentIndex, Newest(t.files), false, false, [], false)
    case Some(row) =>
      row.(parent := parent, kind := t.kind, index := t.index, parentIndex := t.parentIndex,
           modified := Newest(t.files), deleted := false,
           title := if Unclaimed(row) then t.title else row.title)
  }

  function ParentRef(t: Scanned): Option<Ref> {
    if t.parentKey == "" then None else Some(Keyed(t.parentKey))
  }

  predicate ParentFound(c: Catalogue, t: Scanned) {
    t.parentKey == "" || Keyed(t.parentKey) in c.items
  }

  function SaveScanned(c: Catalogue, t: Scanned): Catalogue {
    var r := Keyed(t.key);
    c.(items := c.items[r := Upserted(Get(c.items, r), ParentRef(t), t)])
  }

  /** The unique index on (item_id, source_id): another path of this source already holds the item. */
  predicate Clash<R(==)>(files: map<string, File<R>>, source: nat, r: R, path: string) {
    exists q :: q in files && q != path && files[q].item == r && files[q].source == source
  }

  /** The last element of a slash-separated path, as path/filepath computes it. */
  function Base(path: string): string {
    if path == "" then "."
    else if path == "/" then "/"
    else if path[|path| - 1] == '/' then Base(path[..|path| - 1])
    else AfterSlash(path)
  }

  function AfterSlash(path: string): string {
    if path == "" || path[|path| - 1] == '/' then ""
    else AfterSlash(path[..|path| - 1]) + [path[|path| - 1]]
  }

  /** INSERT ... ON CONFLICT (path) DO UPDATE: a row already at the path keeps its probe. */
  function FileAt<R>(kept: Option<File<R>>, source: nat, r: R, f: ScannedFile): File<R> {
    File(r, source, Base(f.path), f.modified, if kept.Some? then kept.value.probed else None)
  }

  function SaveSource(c: Catalogue, source: nat, r: Ref, f: ScannedFile): Option<Catalogue> {
    if Clash(c.files, source, r, f.path) then None
    else Some(c.(files := c.files[f.path := FileAt(Get(c.files, f.path), source, r, f)]))
  }

  function SaveMembership(c: Catalogue, library: nat, source: nat, r: Ref): Catalogue {
    c.(members := c.members + {Member(library, r, source)})
  }

  /** SaveSource for each file in turn, stopping where the database refuses one. */
  function SaveSources(c: Catalogue, source: nat, r: Ref, files: seq<ScannedFile>): (Catalogue, bool)
    decreases |files|
  {
    if files == [] then (c, true)
    else
      match SaveSource(c, source, r, files[0])
      case None => (c, false)
      case Some(next) => SaveSources(next, source, r, files[1..])
  }

  /** A file ffprobe has not seen since it last changed. */
  predicate NeedsProbe<R>(f: File<R>) {
    f.probed.None? || f.probed.value < f.modified
  }

  /** The files whose probing is enqueued while they are saved in turn. */
  function ToProbe(c: Catalogue, source: nat, r: Ref, files: seq<ScannedFile>): seq<string>
    decreases |files|
  {
    if files == [] then []
    else
      match SaveSource(c, source, r, files[0])
      case None => []
      case Some(next) =>
        (if NeedsProbe(next.files[files[0].path]) then [files[0].path] else []) + ToProbe(next, source, r, files[1..])
  }

  datatype Outcome = Written | MissingParent | DuplicateFile

  /** One attempt of the RefreshItem job. It is not a transaction: what it wrote before failing stays. */
  function RefreshItem(c: Catalogue, library: nat, source: nat, t: Scanned): (Catalogue, Outcome) {
    if !ParentFound(c, t) then (c, MissingParent)
    else
      var (filed, ok) := SaveSources(SaveScanned(c, t), source, Keyed(t.key), t.files);
      if !ok then (filed, DuplicateFile)
      else if !t.tagged then (filed, Written)
      else (SaveMembership(filed, library, source, Keyed(t.key)), Written)
  }

  /** PathNotIn is only added to the condition when there are paths. */
  predicate StaleFile<R>(f: File<R>, path: string, source: nat, paths: seq<string>) {
    f.source == source && (|paths| > 0 ==> path !in paths)
  }

  function PruneFiles(c: Catalogue, source: nat, paths: seq<string>): Catalogue {
    c.(files := map p | p in c.files && !StaleFile(c.files[p], p, source, paths) :: c.files[p])
  }

  /** A row whose item has no key is never matched by KeyNotIn: NULL NOT IN (...) is not true. */
  predicate StaleMember(m: Member<Ref>, library: nat, source: nat, keys: seq<string>) {
    && m.library == library && m.source == source
    && (|keys| > 0 ==> m.item.Keyed? && m.item.key !in keys)
  }

  function PruneMembers(c: Catalogue, library: nat, source: nat, keys: seq<string>): Catalogue {
    c.(members := set m | m in c.members && !StaleMember(m, library, source, keys))
  }

  /** Every path the source reported, tagged or not. */
  function Paths(ts: seq<Scanned>): seq<string> {
    if ts == [] then [] else Paths(ts[..|ts| - 1]) + FilePaths(ts[|ts| - 1].files)
  }

  function FilePaths(files: seq<ScannedFile>): (paths: seq<string>)
    ensures |paths| == |files|
    ensures forall k :: 0 <= k < |files| ==> paths[k] == files[k].path
  {
    seq(|files|, k requires 0 <= k < |files| => files[k].path)
  }

  function TaggedKeys(ts: seq<Scanned>): seq<string> {
    if ts == [] then []
    else TaggedKeys(ts[..|ts| - 1]) + if ts[|ts| - 1].tagged then [ts[|ts| - 1].key] else []
  }

  /** What a refresh of one library from one source deletes before it enqueues its titles. */
  function Prune(c: Catalogue, library: nat, source: nat, ts: seq<Scanned>): Catalogue {
    PruneMembers(PruneFiles(c, source, Paths(ts)), library, source, TaggedKeys(ts))
  }

  lemma {:induction false} PathsHas(ts: seq<Scanned>, p: string)
    ensures p in Paths(ts) <==> exists i, k :: 0 <= i < |ts| && 0 <= k < |ts[i].files| && ts[i].files[k].path == p
  {
    if ts != [] {
      var n := |ts| - 1;
      PathsHas(ts[..n], p);
      if p in Paths(ts[..n]) {
        var i, k :| 0 <= i < n && 0 <= k < |ts[..n][i].files| && ts[..n][i].files[k].path == p;
        assert ts[i].files[k].path == p;
      } else if p in FilePaths(ts[n].files) {
        var k :| 0 <= k < |ts[n].files| && FilePaths(ts[n].files)[k] == p;
        assert ts[n].files[k].path == p;
      }
      forall i, k | 0 <= i < |ts| && 0 <= k < |ts[i].files| && ts[i].files[k].path == p
        ensures p in Paths(ts)
      {
        if i < n {
          assert ts[..n][i].files[k].path == p;
        } else {
          assert FilePaths(ts[n].files)[k] == p;
        }
      }
    }
  }

  lemma {:induction false} TaggedKeysHas(ts: seq<Scanned>, key: string)
    ensures key in TaggedKeys(ts) <==> exists i :: 0 <= i < |ts| && ts[i].tagged && ts[i].key == key
  {
    if ts != [] {
      var n := |ts| - 1;
      TaggedKeysHas(ts[..n], key);
      if key in TaggedKeys(ts[..n]) {
        var i :| 0 <= i < n && ts[..n][i].tagged && ts[..n][i].key == key;
        assert ts[i].tagged && ts[i].key == key;
      } else if ts[n].tagged && ts[n].key == key {
      }
      forall i | 0 <= i < |ts| && ts[i].tagged && ts[i].key == key
        ensures key in TaggedKeys(ts)
      {
        if i < n {
          assert ts[..n][i].tagged && ts[..n][i].key == key;
        }
      }
    }
  }

  /** A reported file is probed again exactly when it is new, was never probed, or changed since. */
  lemma ProbedAgainIff(c: Catalogue, source: nat, r: Ref, f: ScannedFile)
    ensures f.path in ToProbe(c, source, r, [f]) <==>
            && !Clash(c.files, source, r, f.path)
            && (f.path in c.files && c.files[f.path].probed.Some? ==> c.files[f.path].probed.value < f.modified)
  {
    assert [f][1..] == [];
  }
}
