/**
 The refresh protocol: after pruning, one job per title runs its four statements interleaved with
 every other job's, may crash between any two of them, and is retried. The main results describe
 every such run.
 */
module Convergence {
  import opened Options
  import opened Tables

  /** One refresh: the library and source it is for, and the titles the source answered with. */
  datatype Refresh = Refresh(library: nat, source: nat, titles: seq<Scanned>)

  function KeyOf(rf: Refresh, i: nat): Ref
    requires i < |rf.titles|
  {
    Keyed(rf.titles[i].key)
  }

  ghost predicate DistinctKeys(titles: seq<Scanned>) {
    forall i, j :: 0 <= i < j < |titles| ==> titles[i].key != titles[j].key
  }

  ghost predicate OneFileEach(titles: seq<Scanned>) {
    forall i :: 0 <= i < |titles| ==> |titles[i].files| <= 1
  }

  ghost predicate DistinctPaths(titles: seq<Scanned>) {
    forall i, j :: 0 <= i < j < |titles| && titles[i].files != [] && titles[j].files != [] ==>
      titles[i].files[0].path != titles[j].files[0].path
  }

  /** What the source's answer satisfies: one key a title, at most one file a title, one title a path. */
  ghost predicate WellFormed(rf: Refresh) {
    DistinctKeys(rf.titles) && OneFileEach(rf.titles) && DistinctPaths(rf.titles)
  }

  // ---- the protocol -------------------------------------------------------------------------

  /** How far the running attempt of a job has got. */
  datatype Phase = Start | Found | Saved | Filed | Done

  /** The store, the phase of each job, and which jobs have ever got past each write. */
  datatype World = World(c: Catalogue, phase: seq<Phase>, saved: set<nat>, filed: set<nat>, finished: set<nat>)

  /** One statement of one job, or the loss of its attempt (a crash, a timeout, another retry). */
  datatype Event = Find(job: nat) | Save(job: nat) | FileIt(job: nat) | Join(job: nat) | Lose(job: nat)

  function Begin(c: Catalogue, rf: Refresh): World {
    World(Prune(c, rf.library, rf.source, rf.titles), seq(|rf.titles|, _ => Start), {}, {}, {})
  }

  /** A statement the job is not ready for changes nothing; one the database refuses ends the attempt. */
  function Apply(rf: Refresh, w: World, e: Event): World {
    if e.job >= |rf.titles| || |w.phase| != |rf.titles| then w
    else
      var i, t := e.job, rf.titles[e.job];
      match e
      case Find(_) =>
        if w.phase[i] == Start && ParentFound(w.c, t) then w.(phase := w.phase[i := Found]) else w
      case Save(_) =>
        if w.phase[i] != Found then w
        else w.(c := SaveScanned(w.c, t), phase := w.phase[i := Saved], saved := w.saved + {i})
      case FileIt(_) =>
        if w.phase[i] != Saved then w
        else
          var (c, ok) := SaveSources(w.c, rf.source, KeyOf(rf, i), t.files);
          if ok then w.(c := c, phase := w.phase[i := Filed], filed := w.filed + {i})
          else w.(c := c, phase := w.phase[i := Start])
      case Join(_) =>
        if w.phase[i] != Filed then w
        else w.(c := if t.tagged then SaveMembership(w.c, rf.library, rf.source, KeyOf(rf, i)) else w.c,
                phase := w.phase[i := Done], finished := w.finished + {i})
      case Lose(_) => w.(phase := w.phase[i := Start])
  }

  function Run(rf: Refresh, w: World, es: seq<Event>): World {
    if es == [] then w else Apply(rf, Run(rf, w, es[..|es| - 1]), es[|es| - 1])
  }

  lemma {:induction false} RunAppends(rf: Refresh, w: World, es: seq<Event>, fs: seq<Event>)
    ensures Run(rf, w, es + fs) == Run(rf, Run(rf, w, es), fs)
  {
    if fs == [] {
      assert es + fs == es;
    } else {
      var n := |fs| - 1;
      RunAppends(rf, w, es, fs[..n]);
      assert (es + fs)[..|es| + n] == es + fs[..n];
    }
  }

  ghost predicate AllFinished(rf: Refresh, w: World) {
    forall i: nat :: i < |rf.titles| ==> i in w.finished
  }

  // ---- the closed form ----------------------------------------------------------------------

  /** The title that writes the item named r, if any. */
  ghost function TitleOf(rf: Refresh, r: Ref): (i: Option<nat>)
    ensures i.Some? ==> i.value < |rf.titles| && KeyOf(rf, i.value) == r
    ensures i.None? ==> forall j: nat :: j < |rf.titles| ==> KeyOf(rf, j) != r
  {
    if exists j: nat :: j < |rf.titles| && KeyOf(rf, j) == r then
      var j: nat :| j < |rf.titles| && KeyOf(rf, j) == r;
      Some(j)
    else None
  }

  predicate Holds(rf: Refresh, i: nat, p: string) {
    i < |rf.titles| && rf.titles[i].files != [] && rf.titles[i].files[0].path == p
  }

  /** The title that holds the file at p, if any. */
  ghost function HolderOf(rf: Refresh, p: string): (i: Option<nat>)
    ensures i.Some? ==> Holds(rf, i.value, p)
    ensures i.None? ==> forall j: nat :: !Holds(rf, j, p)
  {
    if exists j: nat :: Holds(rf, j, p) then
      var j: nat :| Holds(rf, j, p);
      Some(j)
    else None
  }

  /** The items row named r once the titles in `saved` have been written over the store c0. */
  ghost function ItemAfter(rf: Refresh, c0: Catalogue, saved: set<nat>, r: Ref): Option<Item<Ref>> {
    match TitleOf(rf, r)
    case Some(i) =>
      if i in saved then Some(Upserted(Get(c0.items, r), ParentRef(rf.titles[i]), rf.titles[i])) else Get(c0.items, r)
    case None => Get(c0.items, r)
  }

  ghost function FileAfter(rf: Refresh, c0: Catalogue, filed: set<nat>, p: string): Option<File<Ref>> {
    match HolderOf(rf, p)
    case Some(i) =>
      if i in filed then Some(FileAt(Get(c0.files, p), rf.source, KeyOf(rf, i), rf.titles[i].files[0])) else Get(c0.files, p)
    case None => Get(c0.files, p)
  }

  ghost predicate ItemsTrack(rf: Refresh, c0: Catalogue, c: Catalogue, saved: set<nat>) {
    forall r :: Get(c.items, r) == ItemAfter(rf, c0, saved, r)
  }

  ghost predicate FilesTrack(rf: Refresh, c0: Catalogue, c: Catalogue, filed: set<nat>) {
    forall p :: Get(c.files, p) == FileAfter(rf, c0, filed, p)
  }

  ghost predicate MembersTrack(rf: Refresh, c0: Catalogue, c: Catalogue, finished: set<nat>) {
    forall m :: m in c.members <==>
      m in c0.members || exists i :: i in finished && i < |rf.titles| && rf.titles[i].tagged && m == Member(rf.library, KeyOf(rf, i), rf.source)
  }

  ghost predicate Tracks(rf: Refresh, c0: Catalogue, w: World) {
    && |w.phase| == |rf.titles|
    && w.finished <= w.filed <= w.saved
    && (forall i :: 0 <= i < |rf.titles| && w.phase[i] in {Saved, Filed, Done} ==> i in w.saved)
    && (forall i :: 0 <= i < |rf.titles| && w.phase[i] in {Filed, Done} ==> i in w.filed)
    && (forall i :: 0 <= i < |rf.titles| && w.phase[i] == Done ==> i in w.finished)
    && ItemsTrack(rf, c0, w.c, w.saved)
    && FilesTrack(rf, c0, w.c, w.filed)
    && MembersTrack(rf, c0, w.c, w.finished)
  }

  lemma UpsertTwice(kept: Option<Item<Ref>>, parent: Option<Ref>, t: Scanned)
    ensures Upserted(Some(Upserted(kept, parent, t)), parent, t) == Upserted(kept, parent, t)
  {
  }

  lemma SaveTracks(rf: Refresh, c0: Catalogue, c: Catalogue, saved: set<nat>, j: nat)
    requires WellFormed(rf) && j < |rf.titles|
    requires ItemsTrack(rf, c0, c, saved)
    ensures ItemsTrack(rf, c0, SaveScanned(c, rf.titles[j]), saved + {j})
  {
    var t, d := rf.titles[j], SaveScanned(c, rf.titles[j]);
    forall r
      ensures Get(d.items, r) == ItemAfter(rf, c0, saved + {j}, r)
    {
      assert Get(c.items, r) == ItemAfter(rf, c0, saved, r);
      if r == KeyOf(rf, j) {
        assert TitleOf(rf, r) == Some(j);
        UpsertTwice(Get(c0.items, r), ParentRef(t), t);
      }
    }
  }

  lemma FileTracks(rf: Refresh, c0: Catalogue, c: Catalogue, filed: set<nat>, j: nat)
    requires WellFormed(rf) && j < |rf.titles|
    requires FilesTrack(rf, c0, c, filed)
    requires SaveSources(c, rf.source, KeyOf(rf, j), rf.titles[j].files).1
    ensures FilesTrack(rf, c0, SaveSources(c, rf.source, KeyOf(rf, j), rf.titles[j].files).0, filed + {j})
  {
    var t, d := rf.titles[j], SaveSources(c, rf.source, KeyOf(rf, j), rf.titles[j].files).0;
    if t.files != [] {
      assert t.files[1..] == [];
      assert d == SaveSource(c, rf.source, KeyOf(rf, j), t.files[0]).value;
    }
    forall p
      ensures Get(d.files, p) == FileAfter(rf, c0, filed + {j}, p)
    {
      assert Get(c.files, p) == FileAfter(rf, c0, filed, p);
      if Holds(rf, j, p) {
        assert HolderOf(rf, p) == Some(j);
      }
    }
  }

  lemma RefusedFileChangesNothing(c: Catalogue, source: nat, r: Ref, files: seq<ScannedFile>)
    requires |files| <= 1 && !SaveSources(c, source, r, files).1
    ensures SaveSources(c, source, r, files).0 == c
  {
  }

  lemma {:induction false} ApplyTracks(rf: Refresh, c0: Catalogue, w: World, e: Event)
    requires WellFormed(rf) && Tracks(rf, c0, w)
    ensures Tracks(rf, c0, Apply(rf, w, e))
  {
    if e.job < |rf.titles| {
      var j := e.job;
      var v := Apply(rf, w, e);
      match e
      case Find(_) =>
      case Lose(_) =>
      case Save(_) =>
        if w.phase[j] == Found {
          SaveTracks(rf, c0, w.c, w.saved, j);
          assert FilesTrack(rf, c0, v.c, v.filed);
        }
      case FileIt(_) =>
        if w.phase[j] == Saved {
          var (c, ok) := SaveSources(w.c, rf.source, KeyOf(rf, j), rf.titles[j].files);
          SourcesTouchOnlyFiles(w.c, rf.source, KeyOf(rf, j), rf.titles[j].files);
          if ok {
            FileTracks(rf, c0, w.c, w.filed, j);
            assert ItemsTrack(rf, c0, v.c, v.saved);
          } else {
            RefusedFileChangesNothing(w.c, rf.source, KeyOf(rf, j), rf.titles[j].files);
          }
        }
      case Join(_) =>
        if w.phase[j] == Filed {
          assert v.finished == w.finished + {j};
          assert ItemsTrack(rf, c0, v.c, v.saved) && FilesTrack(rf, c0, v.c, v.filed);
          JoinTracks(rf, c0, w.c, w.finished, j);
        }
    }
  }

  lemma JoinTracks(rf: Refresh, c0: Catalogue, c: Catalogue, finished: set<nat>, j: nat)
    requires j < |rf.titles| && MembersTrack(rf, c0, c, finished)
    ensures MembersTrack(rf, c0,
              if rf.titles[j].tagged then SaveMembership(c, rf.library, rf.source, KeyOf(rf, j)) else c, finished + {j})
  {
    assert j in finished + {j};
    assert forall i :: i in finished ==> i in finished + {j};
  }

  lemma {:induction false} SourcesTouchOnlyFiles(c: Catalogue, source: nat, r: Ref, files: seq<ScannedFile>)
    ensures SaveSources(c, source, r, files).0.items == c.items
    ensures SaveSources(c, source, r, files).0.members == c.members
    decreases |files|
  {
    if files != [] {
      match SaveSource(c, source, r, files[0])
      case None =>
      case Some(next) => SourcesTouchOnlyFiles(next, source, r, files[1..]);
    }
  }

  /** Safety over every run: the store is a function of which writes have succeeded at least once. */
  lemma {:induction false} RunTracks(c: Catalogue, rf: Refresh, es: seq<Event>)
    requires WellFormed(rf)
    ensures Tracks(rf, Begin(c, rf).c, Run(rf, Begin(c, rf), es))
  {
    if es == [] {
    } else {
      RunTracks(c, rf, es[..|es| - 1]);
      ApplyTracks(rf, Begin(c, rf).c, Run(rf, Begin(c, rf), es[..|es| - 1]), es[|es| - 1]);
    }
  }

  // ---- what pruning leaves ------------------------------------------------------------------

  ghost predicate Reported(rf: Refresh, p: string) {
    exists i: nat :: Holds(rf, i, p)
  }

  ghost predicate TaggedAs(rf: Refresh, i: nat, r: Ref) {
    i < |rf.titles| && rf.titles[i].tagged && KeyOf(rf, i) == r
  }

  ghost predicate Tagged(rf: Refresh, r: Ref) {
    exists i: nat :: TaggedAs(rf, i, r)
  }

  ghost predicate AnyTagged(rf: Refresh) {
    exists r :: Tagged(rf, r)
  }

  lemma PrunedFiles(c: Catalogue, rf: Refresh, p: string)
    requires WellFormed(rf)
    ensures Get(Begin(c, rf).c.files, p) ==
            if p in c.files && (c.files[p].source != rf.source || Reported(rf, p)) then Some(c.files[p]) else None
  {
    PathsHas(rf.titles, p);
    if p in Paths(rf.titles) {
      var i, k :| 0 <= i < |rf.titles| && 0 <= k < |rf.titles[i].files| && rf.titles[i].files[k].path == p;
      assert Holds(rf, i, p);
    }
    if Reported(rf, p) {
      var i: nat :| Holds(rf, i, p);
      assert rf.titles[i].files[0].path == p;
    }
  }

  lemma PrunedMembers(c: Catalogue, rf: Refresh, m: Member<Ref>)
    ensures m in Begin(c, rf).c.members <==>
            m in c.members && (m.library == rf.library && m.source == rf.source ==>
              Tagged(rf, m.item) || (m.item.Keyless? && AnyTagged(rf)))
  {
    var keys := TaggedKeys(rf.titles);
    forall key
      ensures key in keys <==> Tagged(rf, Keyed(key))
    {
      TaggedKeysHas(rf.titles, key);
      if key in keys {
        var i :| 0 <= i < |rf.titles| && rf.titles[i].tagged && rf.titles[i].key == key;
        assert TaggedAs(rf, i, Keyed(key));
      }
      if Tagged(rf, Keyed(key)) {
        var i: nat :| TaggedAs(rf, i, Keyed(key));
        assert rf.titles[i].tagged && rf.titles[i].key == key;
      }
    }
    if |keys| > 0 {
      assert keys[0] in keys && Tagged(rf, Keyed(keys[0]));
    }
    if AnyTagged(rf) {
      var r :| Tagged(rf, r);
      var i: nat :| TaggedAs(rf, i, r);
      assert rf.titles[i].key in keys;
    }
  }

  // ---- where a completed run ends -----------------------------------------------------------

  function Below(n: nat): (s: set<nat>)
    ensures forall i: nat :: i in s <==> i < n
  {
    if n == 0 then {} else Below(n - 1) + {n - 1}
  }

  function JobsOf(rf: Refresh): set<nat> {
    Below(|rf.titles|)
  }

  /** A keyless row among the refreshed memberships survives whenever there is a key to compare it with. */
  ghost predicate MembersSynchronised(rf: Refresh, c: Catalogue, d: Catalogue) {
    forall m :: m in d.members <==>
      if m.library == rf.library && m.source == rf.source
      then Tagged(rf, m.item) || (m.item.Keyless? && AnyTagged(rf) && m in c.members)
      else m in c.members
  }

  /** The outcome of a completed refresh, stated from the store it found. */
  ghost predicate Synchronised(rf: Refresh, c: Catalogue, d: Catalogue) {
    && ItemsTrack(rf, c, d, JobsOf(rf))
    && (forall p :: Get(d.files, p) ==
          match HolderOf(rf, p)
          case Some(i) => Some(FileAt(Get(c.files, p), rf.source, KeyOf(rf, i), rf.titles[i].files[0]))
          case None => if p in c.files && c.files[p].source == rf.source then None else Get(c.files, p))
    && MembersSynchronised(rf, c, d)
  }

  lemma TrackedCompletionIsSynchronised(c: Catalogue, rf: Refresh, w: World)
    requires WellFormed(rf) && Tracks(rf, Begin(c, rf).c, w) && AllFinished(rf, w)
    ensures Synchronised(rf, c, w.c)
  {
    var c0 := Begin(c, rf).c;
    var d := w.c;
    forall r
      ensures Get(d.items, r) == ItemAfter(rf, c, JobsOf(rf), r)
    {
      assert Get(d.items, r) == ItemAfter(rf, c0, w.saved, r);
    }
    forall p
      ensures Get(d.files, p) ==
              match HolderOf(rf, p)
              case Some(i) => Some(FileAt(Get(c.files, p), rf.source, KeyOf(rf, i), rf.titles[i].files[0]))
              case None => if p in c.files && c.files[p].source == rf.source then None else Get(c.files, p)
    {
      assert Get(d.files, p) == FileAfter(rf, c0, w.filed, p);
      PrunedFiles(c, rf, p);
    }
    forall m
      ensures m in d.members <==>
              if m.library == rf.library && m.source == rf.source
              then Tagged(rf, m.item) || (m.item.Keyless? && AnyTagged(rf) && m in c.members)
              else m in c.members
    {
      PrunedMembers(c, rf, m);
      if m.library == rf.library && m.source == rf.source && Tagged(rf, m.item) {
        var i: nat :| TaggedAs(rf, i, m.item);
        assert i in w.finished && m == Member(rf.library, KeyOf(rf, i), rf.source);
      }
      if m in d.members && m !in c0.members {
        var i :| i in w.finished && i < |rf.titles| && rf.titles[i].tagged && m == Member(rf.library, KeyOf(rf, i), rf.source);
        assert TaggedAs(rf, i, m.item);
      }
    }
  }

  lemma CompletedIsSynchronised(c: Catalogue, rf: Refresh, es: seq<Event>)
    requires WellFormed(rf) && AllFinished(rf, Run(rf, Begin(c, rf), es))
    ensures Synchronised(rf, c, Run(rf, Begin(c, rf), es).c)
  {
    RunTracks(c, rf, es);
    TrackedCompletionIsSynchronised(c, rf, Run(rf, Begin(c, rf), es));
  }

  lemma SameMap<K(!new), V>(a: map<K, V>, b: map<K, V>)
    requires forall k :: Get(a, k) == Get(b, k)
    ensures a == b
  {
    forall k
      ensures k in a <==> k in b
      ensures k in a ==> a[k] == b[k]
    {
      assert Get(a, k) == Get(b, k);
    }
  }

  lemma SynchronisedIsUnique(rf: Refresh, c: Catalogue, d: Catalogue, e: Catalogue)
    requires Synchronised(rf, c, d) && Synchronised(rf, c, e)
    ensures d == e
  {
    forall r
      ensures Get(d.items, r) == Get(e.items, r)
    {
      assert Get(d.items, r) == ItemAfter(rf, c, JobsOf(rf), r);
    }
    SameMap(d.items, e.items);
    SameMap(d.files, e.files);
    assert forall m :: m in d.members <==> m in e.members;
  }

  /** Schedule independence: any two completed runs from one store end in the same store. */
  lemma CompletedRunsAgree(c: Catalogue, rf: Refresh, es: seq<Event>, fs: seq<Event>)
    requires WellFormed(rf)
    requires AllFinished(rf, Run(rf, Begin(c, rf), es)) && AllFinished(rf, Run(rf, Begin(c, rf), fs))
    ensures Run(rf, Begin(c, rf), es).c == Run(rf, Begin(c, rf), fs).c
  {
    CompletedIsSynchronised(c, rf, es);
    CompletedIsSynchronised(c, rf, fs);
    SynchronisedIsUnique(rf, c, Run(rf, Begin(c, rf), es).c, Run(rf, Begin(c, rf), fs).c);
  }

  /** The source's files are the snapshot's, each held by its own title; so are the memberships. */
  ghost predicate HoldsSnapshot(rf: Refresh, c: Catalogue, d: Catalogue) {
    && (forall p :: p in d.files && d.files[p].source == rf.source <==> Reported(rf, p))
    && (forall i: nat, p :: Holds(rf, i, p) ==> p in d.files && d.files[p].item == KeyOf(rf, i))
    && (forall i: nat :: i < |rf.titles| ==>
          KeyOf(rf, i) in d.items && !d.items[KeyOf(rf, i)].deleted && d.items[KeyOf(rf, i)].parent == ParentRef(rf.titles[i]))
    && (forall key :: Member(rf.library, Keyed(key), rf.source) in d.members <==> Tagged(rf, Keyed(key)))
    && (forall row :: Member(rf.library, Keyless(row), rf.source) in d.members <==>
          AnyTagged(rf) && Member(rf.library, Keyless(row), rf.source) in c.members)
  }

  /** Convergence: a completed run leaves the source's files and memberships as its snapshot has them. */
  lemma CompletedHoldsTheSnapshot(c: Catalogue, rf: Refresh, es: seq<Event>)
    requires WellFormed(rf) && AllFinished(rf, Run(rf, Begin(c, rf), es))
    ensures HoldsSnapshot(rf, c, Run(rf, Begin(c, rf), es).c)
  {
    var d := Run(rf, Begin(c, rf), es).c;
    CompletedIsSynchronised(c, rf, es);
    forall p
      ensures p in d.files && d.files[p].source == rf.source <==> Reported(rf, p)
      ensures forall i: nat :: Holds(rf, i, p) ==> p in d.files && d.files[p].item == KeyOf(rf, i)
    {
      assert Get(d.files, p) ==
             match HolderOf(rf, p)
             case Some(i) => Some(FileAt(Get(c.files, p), rf.source, KeyOf(rf, i), rf.titles[i].files[0]))
             case None => if p in c.files && c.files[p].source == rf.source then None else Get(c.files, p);
      forall i: nat | Holds(rf, i, p)
        ensures HolderOf(rf, p) == Some(i)
      {
      }
    }
    forall i: nat | i < |rf.titles|
      ensures KeyOf(rf, i) in d.items && !d.items[KeyOf(rf, i)].deleted && d.items[KeyOf(rf, i)].parent == ParentRef(rf.titles[i])
    {
      assert Get(d.items, KeyOf(rf, i)) == ItemAfter(rf, c, JobsOf(rf), KeyOf(rf, i));
      assert TitleOf(rf, KeyOf(rf, i)) == Some(i);
    }
    forall key
      ensures !Tagged(rf, Keyless(key))
    {
    }
  }

  /** Non-interference: at every moment of every run, finished or not. */
  lemma RunsLeaveTheRestAlone(c: Catalogue, rf: Refresh, es: seq<Event>)
    requires WellFormed(rf)
    ensures var d := Run(rf, Begin(c, rf), es).c;
            && (forall m: Member<Ref> :: m.library != rf.library || m.source != rf.source ==> (m in d.members <==> m in c.members))
            && (forall p :: p in c.files && c.files[p].source != rf.source && !Reported(rf, p) ==>
                  Get(d.files, p) == Get(c.files, p))
            && (forall p :: p in c.files && Reported(rf, p) ==> p in d.files && d.files[p].probed == c.files[p].probed)
            && (forall r :: TitleOf(rf, r).None? ==> Get(d.items, r) == Get(c.items, r))
            && (forall r :: r in c.items ==> r in d.items)
  {
    RunTracks(c, rf, es);
    var c0, w := Begin(c, rf).c, Run(rf, Begin(c, rf), es);
    var d := w.c;
    forall m: Member<Ref> | m.library != rf.library || m.source != rf.source
      ensures m in d.members <==> m in c.members
    {
      PrunedMembers(c, rf, m);
    }
    forall p | p in c.files
      ensures c.files[p].source != rf.source && !Reported(rf, p) ==> Get(d.files, p) == Get(c.files, p)
      ensures Reported(rf, p) ==> p in d.files && d.files[p].probed == c.files[p].probed
    {
      PrunedFiles(c, rf, p);
      assert Get(d.files, p) == FileAfter(rf, c0, w.filed, p);
    }
    forall r
      ensures TitleOf(rf, r).None? ==> Get(d.items, r) == Get(c.items, r)
      ensures r in c.items ==> r in d.items
    {
      assert Get(d.items, r) == ItemAfter(rf, c0, w.saved, r);
    }
  }

  // ---- memberships are keyed ------------------------------------------------------------------

  /** No membership is of an item without a key, as the migration that introduced keys leaves it. */
  ghost predicate MembersKeyed(c: Catalogue) {
    forall m :: m in c.members ==> m.item.Keyed?
  }

  lemma ApplyKeepsMembersKeyed(rf: Refresh, w: World, e: Event)
    requires MembersKeyed(w.c)
    ensures MembersKeyed(Apply(rf, w, e).c)
  {
    if e.FileIt? && e.job < |rf.titles| {
      SourcesTouchOnlyFiles(w.c, rf.source, KeyOf(rf, e.job), rf.titles[e.job].files);
    }
  }

  /** Every run keeps memberships keyed, whatever the answer. */
  lemma {:induction false} RunsKeepMembersKeyed(c: Catalogue, rf: Refresh, es: seq<Event>)
    requires MembersKeyed(c)
    ensures MembersKeyed(Run(rf, Begin(c, rf), es).c)
  {
    if es != [] {
      RunsKeepMembersKeyed(c, rf, es[..|es| - 1]);
      ApplyKeepsMembersKeyed(rf, Run(rf, Begin(c, rf), es[..|es| - 1]), es[|es| - 1]);
    }
  }

  /** So where memberships are keyed a completed refresh leaves the pair exactly the tagged titles. */
  lemma CompletedHoldsExactlyTheTagged(c: Catalogue, rf: Refresh, es: seq<Event>, r: Ref)
    requires WellFormed(rf) && MembersKeyed(c) && AllFinished(rf, Run(rf, Begin(c, rf), es))
    ensures Member(rf.library, r, rf.source) in Run(rf, Begin(c, rf), es).c.members <==> Tagged(rf, r)
  {
    CompletedHoldsTheSnapshot(c, rf, es);
    RunsKeepMembersKeyed(c, rf, es);
  }

  // ---- two libraries bound to one source ----------------------------------------------------

  /** One answer of the source read for two libraries: only the tags differ. */
  ghost predicate SameAnswer(one: Refresh, two: Refresh) {
    && one.source == two.source
    && |one.titles| == |two.titles|
    && forall i :: 0 <= i < |one.titles| ==> one.titles[i] == two.titles[i].(tagged := one.titles[i].tagged)
  }

  lemma SameAnswerSameWrites(one: Refresh, two: Refresh)
    requires WellFormed(one) && WellFormed(two) && SameAnswer(one, two)
    ensures forall r :: TitleOf(one, r) == TitleOf(two, r)
    ensures forall p :: HolderOf(one, p) == HolderOf(two, p)
    ensures forall i: nat :: i < |one.titles| ==> KeyOf(one, i) == KeyOf(two, i) && one.titles[i].files == two.titles[i].files
    ensures forall i: nat, k: Option<Item<Ref>> :: i < |one.titles| ==>
              Upserted(k, ParentRef(one.titles[i]), one.titles[i]) == Upserted(k, ParentRef(two.titles[i]), two.titles[i])
  {
    forall i: nat, p | true
      ensures Holds(one, i, p) <==> Holds(two, i, p)
    {
      if i < |one.titles| {
        assert one.titles[i].files == two.titles[i].files;
      }
    }
    forall r
      ensures TitleOf(one, r) == TitleOf(two, r)
    {
      if TitleOf(one, r).Some? {
        assert KeyOf(two, TitleOf(one, r).value) == r;
      }
      if TitleOf(two, r).Some? {
        assert KeyOf(one, TitleOf(two, r).value) == r;
      }
    }
    forall p
      ensures HolderOf(one, p) == HolderOf(two, p)
    {
      if HolderOf(one, p).Some? {
        assert Holds(two, HolderOf(one, p).value, p);
      }
      if HolderOf(two, p).Some? {
        assert Holds(one, HolderOf(two, p).value, p);
      }
    }
  }

  /** Items and files after refreshing for one library are what refreshing for both leaves. */
  lemma SecondRefreshOnlyJoins(one: Refresh, two: Refresh, c: Catalogue, a: Catalogue, b: Catalogue)
    requires WellFormed(one) && WellFormed(two) && SameAnswer(one, two)
    requires Synchronised(one, c, a) && Synchronised(two, a, b)
    ensures a.items == b.items && a.files == b.files
  {
    SameAnswerSameWrites(one, two);
    forall r
      ensures Get(a.items, r) == Get(b.items, r)
    {
      assert Get(a.items, r) == ItemAfter(one, c, JobsOf(one), r);
      assert Get(b.items, r) == ItemAfter(two, a, JobsOf(two), r);
      match TitleOf(one, r)
      case None =>
      case Some(i) => UpsertTwice(Get(c.items, r), ParentRef(one.titles[i]), one.titles[i]);
    }
    SameMap(a.items, b.items);
    SameMap(a.files, b.files);
  }

  /** Which library a refresh is for does not show in the items and files it writes. */
  lemma SameAnswerSameTables(one: Refresh, two: Refresh, c: Catalogue, a: Catalogue, b: Catalogue)
    requires WellFormed(one) && WellFormed(two) && SameAnswer(one, two)
    requires Synchronised(one, c, a) && Synchronised(two, c, b)
    ensures a.items == b.items && a.files == b.files
  {
    SameAnswerSameWrites(one, two);
    forall r
      ensures Get(a.items, r) == Get(b.items, r)
    {
      assert Get(a.items, r) == ItemAfter(one, c, JobsOf(one), r);
      assert Get(b.items, r) == ItemAfter(two, c, JobsOf(two), r);
    }
    SameMap(a.items, b.items);
    SameMap(a.files, b.files);
  }

  lemma OtherLibrariesCommute(one: Refresh, two: Refresh, c: Catalogue, a: Catalogue, ab: Catalogue, b: Catalogue, ba: Catalogue)
    requires one.library != two.library
    requires MembersSynchronised(one, c, a) && MembersSynchronised(two, a, ab)
    requires MembersSynchronised(two, c, b) && MembersSynchronised(one, b, ba)
    ensures ab.members == ba.members
  {
    assert forall m :: m in ab.members <==> m in ba.members;
  }

  /** Refreshing two libraries from one answer commutes. */
  lemma SharedSourceCommutes(one: Refresh, two: Refresh, c: Catalogue, a: Catalogue, ab: Catalogue, b: Catalogue, ba: Catalogue)
    requires WellFormed(one) && WellFormed(two) && SameAnswer(one, two) && one.library != two.library
    requires Synchronised(one, c, a) && Synchronised(two, a, ab)
    requires Synchronised(two, c, b) && Synchronised(one, b, ba)
    ensures ab == ba
  {
    SecondRefreshOnlyJoins(one, two, c, a, ab);
    SecondRefreshOnlyJoins(two, one, c, b, ba);
    SameAnswerSameTables(one, two, c, a, b);
    OtherLibrariesCommute(one, two, c, a, ab, b, ba);
  }

  /** Repeating a refresh changes nothing. */
  lemma RefreshIsIdempotent(rf: Refresh, c: Catalogue, a: Catalogue, b: Catalogue)
    requires WellFormed(rf) && Synchronised(rf, c, a) && Synchronised(rf, a, b)
    ensures a == b
  {
    SecondRefreshOnlyJoins(rf, rf, c, a, b);
    assert forall m :: m in a.members <==> m in b.members;
  }
}
