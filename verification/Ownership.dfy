/**
 Which refreshes leave another source's files alone. Rows are unique by local path, so it is the local
 directories of the sources that must not overlap, whatever the roots are.
 */
module Ownership {
  import opened Options
  import opened Tables
  import opened Convergence
  import A = Answers
  import H = Handover
  import R = SourceRoots
  import T = Titles

  /** The source places one of the paths it can report at p. */
  ghost predicate Owns(source: R.Source, p: string) {
    exists q :: R.Localise(source, q) == Some(p)
  }

  ghost predicate ReportsOwn(rf: Refresh, source: R.Source) {
    forall p :: Reported(rf, p) ==> Owns(source, p)
  }

  ghost predicate HoldsOwn(c: Catalogue, id: nat, source: R.Source) {
    forall p :: p in c.files && c.files[p].source == id ==> Owns(source, p)
  }

  /** The rows of source id are the same in both. */
  ghost predicate SameFiles(c: Catalogue, d: Catalogue, id: nat) {
    && (forall p :: p in c.files && c.files[p].source == id ==> p in d.files && d.files[p] == c.files[p])
    && (forall p :: p in d.files && d.files[p].source == id ==> p in c.files && c.files[p].source == id)
  }

  // ---- what is reported is owned ----------------------------------------------------------------

  /** Whatever Sonarr answers, every path reported is one its source owns. */
  lemma SeriesReportOwn(source: R.Source, tagged: seq<int> -> bool, shows: seq<T.Show>, rf: Refresh)
    requires T.Listed(source, tagged, shows, rf.titles)
    ensures ReportsOwn(rf, source)
  {
    forall p | Reported(rf, p)
      ensures Owns(source, p)
    {
      var i: nat :| Holds(rf, i, p);
      var k, o := A.ListedFrom(source, tagged, shows, rf.titles, rf.titles[i]);
      assert o.AnEpisode? && R.Localise(source, o.e.file.path) == Some(p);
    }
  }

  lemma MoviesReportOwn(source: R.Source, tagged: seq<int> -> bool, movies: seq<T.RadarrMovie>, rf: Refresh)
    requires rf.titles == T.MoviesOf(source, tagged, movies)
    ensures ReportsOwn(rf, source)
  {
    forall p | Reported(rf, p)
      ensures Owns(source, p)
    {
      var i: nat :| Holds(rf, i, p);
      var k := A.MoviesFrom(source, tagged, movies, rf.titles[i]);
      assert R.Localise(source, movies[k].file.path) == Some(p);
    }
  }

  // ---- sources that share no local path -----------------------------------------------------------

  lemma OwnedApart(one: R.Source, two: R.Source, p: string)
    requires !R.ShareLocalPath(one, two) && Owns(one, p)
    ensures !Owns(two, p)
  {
    var q :| R.Localise(one, q) == Some(p);
    forall r
      ensures R.Localise(two, r) != Some(p)
    {
    }
  }

  /** With the local directories apart, no run of one source's refresh touches a row of the other, finished or not. */
  lemma RunsSpareOthers(one: R.Source, two: R.Source, c: Catalogue, rf: Refresh, es: seq<Event>, other: nat)
    requires !R.ShareLocalPath(one, two) && other != rf.source
    requires WellFormed(rf) && ReportsOwn(rf, one) && HoldsOwn(c, other, two)
    ensures SameFiles(c, Run(rf, Begin(c, rf), es).c, other)
  {
    var d, w := Run(rf, Begin(c, rf), es).c, Run(rf, Begin(c, rf), es);
    RunTracks(c, rf, es);
    forall p
      ensures p in c.files && c.files[p].source == other ==> p in d.files && d.files[p] == c.files[p]
      ensures p in d.files && d.files[p].source == other ==> p in c.files && c.files[p].source == other
    {
      assert Get(d.files, p) == FileAfter(rf, Begin(c, rf).c, w.filed, p);
      PrunedFiles(c, rf, p);
      if HolderOf(rf, p).Some? {
        assert Reported(rf, p);
        OwnedApart(one, two, p);
      }
    }
  }

  /** Owning what is held is an invariant of every run, for the refreshed source and for every other. */
  lemma RunsKeepOwn(source: R.Source, c: Catalogue, rf: Refresh, es: seq<Event>, id: nat)
    requires WellFormed(rf) && HoldsOwn(c, id, source) && (id == rf.source ==> ReportsOwn(rf, source))
    ensures HoldsOwn(Run(rf, Begin(c, rf), es).c, id, source)
  {
    var d, w := Run(rf, Begin(c, rf), es).c, Run(rf, Begin(c, rf), es);
    RunTracks(c, rf, es);
    forall p | p in d.files && d.files[p].source == id
      ensures Owns(source, p)
    {
      assert Get(d.files, p) == FileAfter(rf, Begin(c, rf).c, w.filed, p);
      PrunedFiles(c, rf, p);
      if HolderOf(rf, p).Some? {
        assert Reported(rf, p);
      }
    }
  }

  // ---- and only those -----------------------------------------------------------------------------

  /** Whatever the two report and hold of their own, a refresh of `one` leaves every row of `two` as it was. */
  ghost predicate Spares(one: R.Source, two: R.Source) {
    forall c, rf, es, other ::
      WellFormed(rf) && ReportsOwn(rf, one) && HoldsOwn(c, other, two) && other != rf.source ==>
        SameFiles(c, Run(rf, Begin(c, rf), es).c, other)
  }

  function OnlyFile(p: string): Catalogue {
    Catalogue(map[], map[p := File(Keyless(0), 1, "", 0, None)], {})
  }

  /** A film reported where another source's file is takes its row. */
  lemma RowIsTaken(key: string, p: string)
    ensures var rf := Refresh(0, 0, [H.Film(key, p)]);
            WellFormed(rf) && !SameFiles(OnlyFile(p), Run(rf, Begin(OnlyFile(p), rf), H.Attempt(0)).c, 1)
  {
    var c, rf := OnlyFile(p), Refresh(0, 0, [H.Film(key, p)]);
    var w := Begin(c, rf);
    RunTracks(c, rf, []);
    assert Run(rf, w, []) == w;
    assert forall j: nat :: !H.Waits(rf, c, 0, j);
    H.AttemptIsRefreshItem(c, rf, w, 0);
    var v := Run(rf, w, H.Attempt(0));
    assert Holds(rf, 0, p) && HolderOf(rf, p) == Some(0) && 0 in v.filed;
    assert Get(v.c.files, p) == FileAfter(rf, w.c, v.filed, p);
    assert p in c.files && c.files[p].source == 1 && v.c.files[p].source == 0;
  }

  /** A film of the one, reported where the two meet, is the refresh that does not spare the other. */
  lemma SharedPathIsTaken(one: R.Source, two: R.Source, a: string, b: string)
    requires R.Localise(one, a).Some? && R.Localise(one, a) == R.Localise(two, b)
    ensures !Spares(one, two)
  {
    var p := R.Localise(one, a).value;
    var c, rf, es := OnlyFile(p), Refresh(0, 0, [H.Film("", p)]), H.Attempt(0);
    RowIsTaken("", p);
    assert forall x :: Reported(rf, x) ==> x == p;
    assert Owns(one, p) && Owns(two, p);
    assert ReportsOwn(rf, one) && HoldsOwn(c, 1, two);
    assert !SameFiles(c, Run(rf, Begin(c, rf), es).c, 1);
  }

  lemma ApartSpares(one: R.Source, two: R.Source)
    requires !R.ShareLocalPath(one, two)
    ensures Spares(one, two)
  {
    forall c, rf, es, other |
      WellFormed(rf) && ReportsOwn(rf, one) && HoldsOwn(c, other, two) && other != rf.source
      ensures SameFiles(c, Run(rf, Begin(c, rf), es).c, other)
    {
      RunsSpareOthers(one, two, c, rf, es, other);
    }
  }

  /** One source's refreshes spare the other's files exactly when no local path is shared. */
  lemma SparesIffNoLocalPathShared(one: R.Source, two: R.Source)
    ensures Spares(one, two) <==> !R.ShareLocalPath(one, two)
  {
    if R.ShareLocalPath(one, two) {
      var a, b :| R.Localise(one, a).Some? && R.Localise(one, a) == R.Localise(two, b);
      SharedPathIsTaken(one, two, a, b);
    } else {
      ApartSpares(one, two);
    }
  }
}
