/**
 When a refresh can complete. The unique index on (item_id, source_id) lets an item hold one file of a
 source, so a title whose item still holds another title's new file has to wait for that title.
 Titles that have swapped files wait for each other and are refused on every attempt.
 */
module Handover {
  import opened Options
  import opened Tables
  import opened Convergence

  /** In the store the refresh found, title i's item holds the file that title j now reports. */
  predicate Waits(rf: Refresh, c: Catalogue, i: nat, j: nat) {
    && i < |rf.titles| && j < |rf.titles| && i != j
    && rf.titles[i].files != [] && rf.titles[j].files != []
    && var p := rf.titles[j].files[0].path;
       p in c.files && c.files[p].item == KeyOf(rf, i) && c.files[p].source == rf.source
  }

  ghost predicate WaitsIn(rf: Refresh, c: Catalogue, i: nat, among: set<nat>) {
    exists j :: j in among && Waits(rf, c, i, j)
  }

  predicate OnRing(i: nat, ring: set<nat>) {
    i in ring
  }

  /** Titles that can only ever hand their files to each other. */
  ghost predicate Ring(rf: Refresh, c: Catalogue, ring: set<nat>) {
    ring != {} && forall i: nat :: OnRing(i, ring) ==> WaitsIn(rf, c, i, ring)
  }

  ghost predicate CanComplete(c: Catalogue, rf: Refresh) {
    exists es :: AllFinished(rf, Run(rf, Begin(c, rf), es))
  }

  ghost predicate Stuck(c: Catalogue, rf: Refresh) {
    exists ring :: Ring(rf, c, ring)
  }

  /** Each title's parent is stored already or comes earlier in the answer. */
  ghost predicate ParentsListed(rf: Refresh, c: Catalogue) {
    forall i: nat :: i < |rf.titles| ==>
      ParentFound(c, rf.titles[i]) || exists j: nat :: j < i && KeyOf(rf, j) == Keyed(rf.titles[i].parentKey)
  }

  /** The database refuses a title's file exactly while the title waits for one that is not filed yet. */
  lemma RefusedIffWaiting(c: Catalogue, rf: Refresh, w: World, i: nat)
    requires WellFormed(rf) && Tracks(rf, Begin(c, rf).c, w) && i < |rf.titles| && rf.titles[i].files != []
    ensures Clash(w.c.files, rf.source, KeyOf(rf, i), rf.titles[i].files[0].path) <==>
            exists j: nat :: j !in w.filed && Waits(rf, c, i, j)
  {
    var c0, r, path := Begin(c, rf).c, KeyOf(rf, i), rf.titles[i].files[0].path;
    if Clash(w.c.files, rf.source, r, path) {
      var q :| q in w.c.files && q != path && w.c.files[q].item == r && w.c.files[q].source == rf.source;
      assert Get(w.c.files, q) == FileAfter(rf, c0, w.filed, q);
      PrunedFiles(c, rf, q);
      var j := HolderOf(rf, q).value;
      assert j !in w.filed && Waits(rf, c, i, j);
    }
    forall j: nat | j !in w.filed && Waits(rf, c, i, j)
      ensures Clash(w.c.files, rf.source, r, path)
    {
      var q := rf.titles[j].files[0].path;
      assert Holds(rf, j, q) && Holds(rf, i, path);
      assert HolderOf(rf, q) == Some(j);
      PrunedFiles(c, rf, q);
      assert Get(w.c.files, q) == FileAfter(rf, c0, w.filed, q);
      assert q in w.c.files && q != path;
    }
  }

  lemma SourcesSucceedIff(c: Catalogue, source: nat, r: Ref, files: seq<ScannedFile>)
    requires |files| <= 1
    ensures SaveSources(c, source, r, files).1 <==> files == [] || !Clash(c.files, source, r, files[0].path)
  {
    if files != [] {
      assert files[1..] == [];
    }
  }

  // ---- titles in a ring ---------------------------------------------------------------------

  lemma WaitingIsRefused(c: Catalogue, rf: Refresh, w: World, i: nat, j: nat)
    requires WellFormed(rf) && Tracks(rf, Begin(c, rf).c, w) && Waits(rf, c, i, j) && j !in w.filed
    ensures Apply(rf, w, FileIt(i)).filed == w.filed
  {
    RefusedIffWaiting(c, rf, w, i);
    SourcesSucceedIff(w.c, rf.source, KeyOf(rf, i), rf.titles[i].files);
  }

  lemma RingStaysUnfiled(c: Catalogue, rf: Refresh, ring: set<nat>, w: World, e: Event)
    requires WellFormed(rf) && Tracks(rf, Begin(c, rf).c, w) && ring !! w.filed
    requires e.job in ring ==> WaitsIn(rf, c, e.job, ring)
    ensures ring !! Apply(rf, w, e).filed
  {
    if e.FileIt? && e.job in ring {
      var j :| j in ring && Waits(rf, c, e.job, j);
      WaitingIsRefused(c, rf, w, e.job, j);
    } else {
      OnlyFilingFiles(rf, w, e);
    }
  }

  lemma OnlyFilingFiles(rf: Refresh, w: World, e: Event)
    ensures Apply(rf, w, e).filed <= if e.FileIt? then w.filed + {e.job} else w.filed
  {
  }

  /** Safety over every run: no title of a ring is ever filed, however it is scheduled or retried. */
  lemma {:induction false} RingIsNeverFiled(c: Catalogue, rf: Refresh, ring: set<nat>, es: seq<Event>)
    requires WellFormed(rf) && Ring(rf, c, ring)
    ensures ring !! Run(rf, Begin(c, rf), es).filed
  {
    if es != [] {
      var n := |es| - 1;
      RingIsNeverFiled(c, rf, ring, es[..n]);
      RunTracks(c, rf, es[..n]);
      RingStaysUnfiled(c, rf, ring, Run(rf, Begin(c, rf), es[..n]), es[n]);
    }
  }

  // ---- one attempt, uninterrupted ------------------------------------------------------------

  function Attempt(i: nat): seq<Event> {
    [Lose(i)] + [Find(i)] + [Save(i)] + [FileIt(i)] + [Join(i)]
  }

  lemma RunOne(rf: Refresh, w: World, es: seq<Event>, e: Event)
    ensures Run(rf, w, es + [e]) == Apply(rf, Run(rf, w, es), e)
  {
    assert (es + [e])[..|es|] == es;
  }

  lemma RunFirst(rf: Refresh, w: World, e: Event)
    ensures Run(rf, w, [e]) == Apply(rf, w, e)
  {
    assert [e][..0] == [];
  }

  lemma RunAttempt(rf: Refresh, w: World, i: nat)
    ensures Run(rf, w, Attempt(i)) ==
            Apply(rf, Apply(rf, Apply(rf, Apply(rf, Apply(rf, w, Lose(i)), Find(i)), Save(i)), FileIt(i)), Join(i))
  {
    RunFirst(rf, w, Lose(i));
    RunOne(rf, w, [Lose(i)], Find(i));
    RunOne(rf, w, [Lose(i)] + [Find(i)], Save(i));
    RunOne(rf, w, [Lose(i)] + [Find(i)] + [Save(i)], FileIt(i));
    RunOne(rf, w, [Lose(i)] + [Find(i)] + [Save(i)] + [FileIt(i)], Join(i));
  }

  /** Run alone, the five events are one call of RefreshItem, and it succeeds unless the title waits. */
  lemma AttemptIsRefreshItem(c: Catalogue, rf: Refresh, w: World, i: nat)
    requires WellFormed(rf) && Tracks(rf, Begin(c, rf).c, w) && i < |rf.titles|
    requires ParentFound(w.c, rf.titles[i])
    ensures var v := Run(rf, w, Attempt(i));
            var out := RefreshItem(w.c, rf.library, rf.source, rf.titles[i]);
            && Tracks(rf, Begin(c, rf).c, v)
            && v.c == out.0
            && v.saved == w.saved + {i}
            && (out.1 == Written <==> forall j: nat :: Waits(rf, c, i, j) ==> j in w.filed)
            && v.filed == (if out.1 == Written then w.filed + {i} else w.filed)
            && v.finished == (if out.1 == Written then w.finished + {i} else w.finished)
  {
    var t, c0 := rf.titles[i], Begin(c, rf).c;
    RunAttempt(rf, w, i);
    var w1 := Apply(rf, w, Lose(i));
    var w2 := Apply(rf, w1, Find(i));
    var w3 := Apply(rf, w2, Save(i));
    var w4 := Apply(rf, w3, FileIt(i));
    var w5 := Apply(rf, w4, Join(i));
    ApplyTracks(rf, c0, w, Lose(i));
    ApplyTracks(rf, c0, w1, Find(i));
    ApplyTracks(rf, c0, w2, Save(i));
    ApplyTracks(rf, c0, w3, FileIt(i));
    ApplyTracks(rf, c0, w4, Join(i));
    assert w2.phase[i] == Found && w3.phase[i] == Saved && w3.c == SaveScanned(w.c, t);
    SourcesSucceedIff(w3.c, rf.source, KeyOf(rf, i), t.files);
    if t.files != [] {
      RefusedIffWaiting(c, rf, w3, i);
    }
  }

  lemma ParentsStayFound(c: Catalogue, rf: Refresh, w: World, i: nat)
    requires WellFormed(rf) && Tracks(rf, Begin(c, rf).c, w) && i < |rf.titles|
    requires ParentFound(c, rf.titles[i]) || exists j :: j in w.saved && j < |rf.titles| && KeyOf(rf, j) == Keyed(rf.titles[i].parentKey)
    ensures ParentFound(w.c, rf.titles[i])
  {
    var t, c0 := rf.titles[i], Begin(c, rf).c;
    if t.parentKey != "" {
      assert Get(w.c.items, Keyed(t.parentKey)) == ItemAfter(rf, c0, w.saved, Keyed(t.parentKey));
      if !ParentFound(c, t) {
        var j :| j in w.saved && j < |rf.titles| && KeyOf(rf, j) == Keyed(t.parentKey);
        assert TitleOf(rf, Keyed(t.parentKey)) == Some(j);
      }
    }
  }

  // ---- completing a run ---------------------------------------------------------------------

  /** Attempting the first n titles in the order of the answer saves all their items. */
  lemma {:induction false} SaveAll(c: Catalogue, rf: Refresh, w: World, n: nat) returns (fs: seq<Event>)
    requires WellFormed(rf) && ParentsListed(rf, c) && n <= |rf.titles| && Tracks(rf, Begin(c, rf).c, w)
    ensures Tracks(rf, Begin(c, rf).c, Run(rf, w, fs)) && Below(n) <= Run(rf, w, fs).saved
  {
    if n == 0 {
      fs := [];
    } else {
      var gs := SaveAll(c, rf, w, n - 1);
      fs := gs + Attempt(n - 1);
      RunAppends(rf, w, gs, Attempt(n - 1));
      SaveNext(c, rf, Run(rf, w, gs), n - 1);
    }
  }

  lemma SaveNext(c: Catalogue, rf: Refresh, w: World, i: nat)
    requires WellFormed(rf) && ParentsListed(rf, c) && i < |rf.titles|
    requires Tracks(rf, Begin(c, rf).c, w) && Below(i) <= w.saved
    ensures Tracks(rf, Begin(c, rf).c, Run(rf, w, Attempt(i)))
    ensures Run(rf, w, Attempt(i)).saved == w.saved + {i}
  {
    if !ParentFound(c, rf.titles[i]) {
      var j: nat :| j < i && KeyOf(rf, j) == Keyed(rf.titles[i].parentKey);
      assert j in Below(i);
    }
    ParentsStayFound(c, rf, w, i);
    AttemptIsRefreshItem(c, rf, w, i);
  }

  /** With every item saved and no ring, some unfinished title always succeeds when attempted. */
  lemma {:induction false} FinishAll(c: Catalogue, rf: Refresh, w: World) returns (fs: seq<Event>)
    requires WellFormed(rf) && ParentsListed(rf, c) && !Stuck(c, rf)
    requires Tracks(rf, Begin(c, rf).c, w) && JobsOf(rf) <= w.saved
    ensures JobsOf(rf) <= Run(rf, w, fs).finished
    decreases JobsOf(rf) - w.finished
  {
    var left := JobsOf(rf) - w.finished;
    if left == {} {
      fs := [];
      assert forall i :: i in JobsOf(rf) ==> i !in left;
    } else {
      assert !Ring(rf, c, left);
      var i :| i in left && !WaitsIn(rf, c, i, left);
      FinishNext(c, rf, w, i);
      var v := Run(rf, w, Attempt(i));
      assert i in left && i !in JobsOf(rf) - v.finished;
      var gs := FinishAll(c, rf, v);
      fs := Attempt(i) + gs;
      RunAppends(rf, w, Attempt(i), gs);
    }
  }

  lemma FinishNext(c: Catalogue, rf: Refresh, w: World, i: nat)
    requires WellFormed(rf) && ParentsListed(rf, c) && Tracks(rf, Begin(c, rf).c, w)
    requires JobsOf(rf) <= w.saved && i in JobsOf(rf) && !WaitsIn(rf, c, i, JobsOf(rf) - w.finished)
    ensures Tracks(rf, Begin(c, rf).c, Run(rf, w, Attempt(i)))
    ensures Run(rf, w, Attempt(i)).finished == w.finished + {i}
    ensures Run(rf, w, Attempt(i)).saved == w.saved + {i}
  {
    if !ParentFound(c, rf.titles[i]) {
      var j: nat :| j < i && KeyOf(rf, j) == Keyed(rf.titles[i].parentKey);
      assert j in JobsOf(rf);
    }
    ParentsStayFound(c, rf, w, i);
    AttemptIsRefreshItem(c, rf, w, i);
    forall j: nat | Waits(rf, c, i, j)
      ensures j in w.filed
    {
      assert j in JobsOf(rf) && j !in JobsOf(rf) - w.finished;
    }
  }

  /** Were attempts unlimited, every reachable state could still complete without a ring; Retries counts them. */
  lemma EveryRunCanComplete(c: Catalogue, rf: Refresh, es: seq<Event>) returns (fs: seq<Event>)
    requires WellFormed(rf) && ParentsListed(rf, c) && !Stuck(c, rf)
    ensures AllFinished(rf, Run(rf, Begin(c, rf), es + fs))
  {
    var w := Run(rf, Begin(c, rf), es);
    RunTracks(c, rf, es);
    var gs := SaveAll(c, rf, w, |rf.titles|);
    var hs := FinishAll(c, rf, Run(rf, w, gs));
    fs := gs + hs;
    RunAppends(rf, w, gs, hs);
    RunAppends(rf, Begin(c, rf), es, fs);
  }

  /** Some schedule completes a refresh exactly when no titles have swapped files in a ring. */
  lemma CompletesIffNoRing(c: Catalogue, rf: Refresh)
    requires WellFormed(rf) && ParentsListed(rf, c)
    ensures CanComplete(c, rf) <==> !Stuck(c, rf)
  {
    if Stuck(c, rf) {
      var ring :| Ring(rf, c, ring);
      forall es
        ensures !AllFinished(rf, Run(rf, Begin(c, rf), es))
      {
        RingIsNeverFiled(c, rf, ring, es);
        RunTracks(c, rf, es);
        var i :| i in ring;
        assert WaitsIn(rf, c, i, ring);
      }
    } else {
      var es := EveryRunCanComplete(c, rf, []);
      var fs := [] + es;
      assert AllFinished(rf, Run(rf, Begin(c, rf), fs));
    }
  }

  /** After a completed refresh nothing waits any more, so the next one can complete too. */
  lemma CompletedRefreshLeavesNoWaits(rf: Refresh, c: Catalogue, d: Catalogue, i: nat, j: nat)
    requires WellFormed(rf) && Synchronised(rf, c, d)
    ensures !Waits(rf, d, i, j)
  {
    if i < |rf.titles| && j < |rf.titles| && i != j && rf.titles[j].files != [] {
      var p := rf.titles[j].files[0].path;
      assert Holds(rf, j, p) && HolderOf(rf, p) == Some(j);
      assert Get(d.files, p) == Some(FileAt(Get(c.files, p), rf.source, KeyOf(rf, j), rf.titles[j].files[0]));
    }
  }

  // ---- the failing input ---------------------------------------------------------------------

  function Film(key: string, path: string): Scanned {
    Scanned(key, "", true, Movie, Headline("", "", None), None, None, [ScannedFile(path, 1)])
  }

  /** Two films of one source, each holding its own file. */
  function TwoFilms(source: nat, one: string, two: string, a: string, b: string): Catalogue {
    var row := Item(None, Movie, Headline("", "", None), None, None, None, false, false, [], false);
    Catalogue(map[Keyed(one) := row, Keyed(two) := row],
              map[a := File(Keyed(one), source, "", 1, None), b := File(Keyed(two), source, "", 1, None)],
              {})
  }

  /** Once two films have exchanged files, no schedule and no number of retries files either. */
  lemma SwappedFilmsNeverConverge(library: nat, source: nat, one: string, two: string, a: string, b: string, es: seq<Event>)
    requires one != two && a != b
    ensures var rf := Refresh(library, source, [Film(one, b), Film(two, a)]);
            WellFormed(rf) && ParentsListed(rf, TwoFilms(source, one, two, a, b)) &&
            Run(rf, Begin(TwoFilms(source, one, two, a, b), rf), es).filed !! {0, 1}
  {
    var rf := Refresh(library, source, [Film(one, b), Film(two, a)]);
    var c := TwoFilms(source, one, two, a, b);
    assert Waits(rf, c, 0, 1) && Waits(rf, c, 1, 0);
    assert WaitsIn(rf, c, 0, {0, 1}) && WaitsIn(rf, c, 1, {0, 1});
    RingIsNeverFiled(c, rf, {0, 1}, es);
  }
}
