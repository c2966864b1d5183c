/**
 What a library holds after a refresh, in terms of what Sonarr or Radarr answered: which titles come of the
 answer, column by column, which of them are in the library, and what the provider is asked about them later.
 */
module Snapshots {
  import opened Options
  import opened Tables
  import opened Text
  import opened Titles
  import A = Answers
  import C = Convergence
  import K = Keys
  import R = SourceRoots
  import S = StoredTitles

  // ---- the titles an answer makes -------------------------------------------------------------------

  /** The one file of a title: where the source keeps it, with the time the answer gives. */
  predicate OneFileAt(source: R.Source, file: ArrFile, x: Scanned) {
    |x.files| == 1 && R.Localise(source, file.path) == Some(x.files[0].path) && x.files[0].modified == file.dateAdded
  }

  predicate Year(year: int, stored: Option<int>) {
    (year == 0 ==> stored.None?) && (year != 0 ==> stored == Some(year))
  }

  /** x is the title of movie m. */
  predicate MovieTitle(source: R.Source, tagged: seq<int> -> bool, m: RadarrMovie, x: Scanned) {
    && m.hasFile && m.tmdbId != 0 && OneFileAt(source, m.file, x)
    && x.key == K.MovieKey(m.tmdbId) && x.parentKey == "" && x.kind == Movie && (x.tagged <==> tagged(m.tags))
    && x.title.name == m.title && x.title.sortName == SortName(m.title) && Year(m.year, x.title.year)
    && x.index.None? && x.parentIndex.None?
  }

  lemma MovieTitleIs(source: R.Source, tagged: seq<int> -> bool, m: RadarrMovie, x: Scanned)
    ensures A.IsTaken(source, m) && x == MovieOf(source, tagged, m) <==> MovieTitle(source, tagged, m, x)
  {
    if MovieTitle(source, tagged, m, x) {
      assert x.files == [x.files[0]];
    }
  }

  /** The titles of an answer are exactly the movies on disk in the root that have an identifier. */
  lemma MovieTitlesAre(source: R.Source, tagged: seq<int> -> bool, movies: seq<RadarrMovie>, x: Scanned)
    ensures x in MoviesOf(source, tagged, movies) <==> exists m :: m in movies && MovieTitle(source, tagged, m, x)
  {
    if x in MoviesOf(source, tagged, movies) {
      var i := A.MoviesFrom(source, tagged, movies, x);
      MovieTitleIs(source, tagged, movies[i], x);
      assert movies[i] in movies;
    }
    if exists m :: m in movies && MovieTitle(source, tagged, m, x) {
      var m :| m in movies && MovieTitle(source, tagged, m, x);
      var i :| 0 <= i < |movies| && movies[i] == m;
      MovieTitleIs(source, tagged, m, x);
      MovieIsListed(source, tagged, movies, i);
    }
  }

  lemma {:induction false} MovieIsListed(source: R.Source, tagged: seq<int> -> bool, movies: seq<RadarrMovie>, i: nat)
    requires i < |movies| && A.IsTaken(source, movies[i])
    ensures MovieOf(source, tagged, movies[i]) in MoviesOf(source, tagged, movies)
  {
    var n := |movies| - 1;
    if i < n {
      assert movies[..n][i] == movies[i];
      MovieIsListed(source, tagged, movies[..n], i);
    } else {
      assert MovieOf(source, tagged, movies[n]) in Taken(source, tagged, movies[n]);
    }
  }

  lemma OneMovieMore(source: R.Source, tagged: seq<int> -> bool, some: seq<RadarrMovie>, front: seq<RadarrMovie>, m: RadarrMovie)
    requires MoviesOf(source, tagged, some + front) == MoviesOf(source, tagged, some) + MoviesOf(source, tagged, front)
    ensures MoviesOf(source, tagged, some + (front + [m])) == MoviesOf(source, tagged, some) + MoviesOf(source, tagged, front + [m])
  {
    MovieAdds(source, tagged, some + front, m);
    MovieAdds(source, tagged, front, m);
    assert some + (front + [m]) == (some + front) + [m];
    AppendAssociates(MoviesOf(source, tagged, some), MoviesOf(source, tagged, front), Taken(source, tagged, m));
  }

  /** They come in the order answered. */
  lemma {:induction false} MoviesInOrder(source: R.Source, tagged: seq<int> -> bool, some: seq<RadarrMovie>, more: seq<RadarrMovie>)
    ensures MoviesOf(source, tagged, some + more) == MoviesOf(source, tagged, some) + MoviesOf(source, tagged, more)
    decreases |more|
  {
    if more == [] {
      NoMovieMore(source, tagged, some);
    } else {
      var front, m := more[..|more| - 1], more[|more| - 1];
      assert more == front + [m] && some + more == some + (front + [m]);
      MoviesInOrder(source, tagged, some, front);
      OneMovieMore(source, tagged, some, front, m);
    }
  }

  lemma NoMovieMore(source: R.Source, tagged: seq<int> -> bool, some: seq<RadarrMovie>)
    ensures MoviesOf(source, tagged, some + []) == MoviesOf(source, tagged, some) + MoviesOf(source, tagged, [])
  {
    assert some + [] == some && MoviesOf(source, tagged, []) == [];
  }

  predicate SeriesTitle(tagged: seq<int> -> bool, s: Show, x: Scanned) {
    && x.key == K.SeriesKey(s.tmdbId) && x.parentKey == "" && x.kind == Series && (x.tagged <==> tagged(s.tags))
    && x.title.name == s.title && x.title.sortName == SortName(s.title) && Year(s.year, x.title.year)
    && x.index.None? && x.parentIndex.None? && x.files == []
  }

  predicate SeasonTitleOf(tagged: seq<int> -> bool, s: Show, n: int, x: Scanned) {
    && x.key == K.SeasonKey(s.tmdbId, n) && x.parentKey == K.SeriesKey(s.tmdbId) && x.kind == Season && (x.tagged <==> tagged(s.tags))
    && x.title.name == (if n == 0 then "Specials" else "Season " + Decimal(n)) && x.title.sortName == SeasonSortName(n)
    && x.title.year.None? && x.index == Some(n) && x.parentIndex.None? && x.files == []
  }

  predicate EpisodeTitleOf(source: R.Source, tagged: seq<int> -> bool, s: Show, e: SonarrEpisode, x: Scanned) {
    && e.hasFile && OneFileAt(source, e.file, x)
    && x.key == K.EpisodeKey(s.tmdbId, e.season, e.number) && x.parentKey == K.SeasonKey(s.tmdbId, e.season)
    && x.kind == Episode && (x.tagged <==> tagged(s.tags)) && x.index == Some(e.number) && x.parentIndex == Some(e.season)
    && (e.title != "" ==> x.title.name == e.title) && (e.title == "" ==> x.title.name == "Episode " + Decimal(e.number))
    && x.title.sortName == SortName(x.title.name) && x.title.year.None?
  }

  /** x is a title of show s: the series, the season of one of its episodes on disk in the root, or such an episode. */
  ghost predicate ShowTitle(source: R.Source, tagged: seq<int> -> bool, s: Show, x: Scanned) {
    && s.tmdbId != 0
    && exists e :: e in s.episodes && A.InRoot(source, e) &&
         (SeriesTitle(tagged, s, x) || SeasonTitleOf(tagged, s, e.season, x) || EpisodeTitleOf(source, tagged, s, e, x))
  }

  /** The titles of an answer are exactly those of its shows. */
  lemma SeriesTitlesAre(source: R.Source, tagged: seq<int> -> bool, shows: seq<Show>, titles: seq<Scanned>, x: Scanned)
    requires Listed(source, tagged, shows, titles)
    ensures x in titles <==> exists s :: s in shows && ShowTitle(source, tagged, s, x)
  {
    if x in titles {
      var i := ListedIsShown(source, tagged, shows, titles, x);
      assert shows[i] in shows;
    }
    if exists s :: s in shows && ShowTitle(source, tagged, s, x) {
      var s :| s in shows && ShowTitle(source, tagged, s, x);
      var piece := PieceIsListed(source, tagged, shows, titles, s);
      ShownIsInPiece(source, tagged, s, piece, x);
    }
  }

  lemma LastPiece(source: R.Source, tagged: seq<int> -> bool, shows: seq<Show>, titles: seq<Scanned>)
    returns (before: seq<Scanned>, piece: seq<Scanned>)
    requires Listed(source, tagged, shows, titles) && shows != []
    ensures titles == before + piece && Listed(source, tagged, shows[..|shows| - 1], before)
    ensures Piece(source, tagged, shows[|shows| - 1], piece)
  {
    before, piece :| ListedLast(source, tagged, shows, titles, before, piece);
  }

  lemma {:induction false} ListedIsShown(source: R.Source, tagged: seq<int> -> bool, shows: seq<Show>, titles: seq<Scanned>, x: Scanned)
    returns (i: nat)
    requires Listed(source, tagged, shows, titles) && x in titles
    ensures i < |shows| && ShowTitle(source, tagged, shows[i], x)
  {
    var n := |shows| - 1;
    var before, piece := LastPiece(source, tagged, shows, titles);
    if x in before {
      i := ListedIsShown(source, tagged, shows[..n], before, x);
    } else {
      i := n;
      PieceIsShown(source, tagged, shows[n], piece, x);
    }
  }

  /** The piece of each show is listed. */
  lemma {:induction false} PieceIsListed(source: R.Source, tagged: seq<int> -> bool, shows: seq<Show>, titles: seq<Scanned>, s: Show)
    returns (piece: seq<Scanned>)
    requires Listed(source, tagged, shows, titles) && s in shows
    ensures Piece(source, tagged, s, piece) && forall x :: x in piece ==> x in titles
    decreases |shows|
  {
    var front, last := shows[..|shows| - 1], shows[|shows| - 1];
    var before, own := LastPiece(source, tagged, shows, titles);
    if s == last {
      piece := own;
    } else {
      assert shows == front + [last];
      piece := PieceIsListed(source, tagged, front, before, s);
    }
  }

  // ---- one show -------------------------------------------------------------------------------------

  lemma {:induction false} NumbersHas(a: About, episodes: seq<SonarrEpisode>, n: int)
    ensures n in Numbers(a, episodes) <==> exists e :: e in episodes && A.InRoot(a.source, e) && e.season == n
  {
    if episodes != [] {
      var last := |episodes| - 1;
      NumbersHas(a, episodes[..last], n);
      assert episodes == episodes[..last] + [episodes[last]];
    }
  }

  predicate MadeInSeason(a: About, e: SonarrEpisode, n: int, x: Scanned) {
    A.InRoot(a.source, e) && e.season == n && x == EpisodeOf(a, e)
  }

  lemma {:induction false} EpisodeIsInSeason(a: About, episodes: seq<SonarrEpisode>, k: nat)
    requires k < |episodes| && A.InRoot(a.source, episodes[k])
    ensures EpisodeOf(a, episodes[k]) in InSeason(a, episodes, episodes[k].season)
  {
    var last := |episodes| - 1;
    if k < last {
      assert episodes[..last][k] == episodes[k];
      EpisodeIsInSeason(a, episodes[..last], k);
    }
  }

  lemma InSeasonHas(a: About, episodes: seq<SonarrEpisode>, n: int, x: Scanned)
    ensures x in InSeason(a, episodes, n) <==> exists e :: e in episodes && MadeInSeason(a, e, n, x)
  {
    if x in InSeason(a, episodes, n) {
      A.InSeasonFrom(a, episodes, n, x);
      var k :| 0 <= k < |episodes| && episodes[k].season == n && A.From(a, Show(0, "", [], 0, []), A.AnEpisode(episodes[k]), x);
      assert episodes[k] in episodes && MadeInSeason(a, episodes[k], n, x);
    }
    forall e | e in episodes && MadeInSeason(a, e, n, x)
      ensures x in InSeason(a, episodes, n)
    {
      var k :| 0 <= k < |episodes| && episodes[k] == e;
      EpisodeIsInSeason(a, episodes, k);
    }
  }

  /** Within a season, the episodes come in the order answered. */
  lemma {:induction false} EpisodesInOrder(a: About, some: seq<SonarrEpisode>, more: seq<SonarrEpisode>, n: int)
    ensures InSeason(a, some + more, n) == InSeason(a, some, n) + InSeason(a, more, n)
    decreases |more|
  {
    if more == [] {
      assert some + more == some;
    } else {
      var front, e := more[..|more| - 1], more[|more| - 1];
      EpisodesInOrder(a, some, front, n);
      EpisodeAdds(a, some + front, e, n);
      EpisodeAdds(a, front, e, n);
      assert more == front + [e] && some + more == (some + front) + [e];
      AppendAssociates(InSeason(a, some, n), InSeason(a, front, n), if e.season == n && Found(a, e).Some? then [EpisodeOf(a, e)] else []);
    }
  }

  lemma InBlock(a: About, episodes: seq<SonarrEpisode>, n: int, x: Scanned)
    ensures x in Block(a, episodes, n) <==> x == SeasonOf(a, n) || x in InSeason(a, episodes, n)
  {
    assert SeasonOf(a, n) in [SeasonOf(a, n)];
  }

  lemma BlockMore(a: About, episodes: seq<SonarrEpisode>, front: seq<int>, n: int)
    ensures Blocks(a, episodes, front + [n]) == Blocks(a, episodes, front) + Block(a, episodes, n)
  {
    assert (front + [n])[..|front|] == front;
  }

  lemma {:induction false} BlocksHas(a: About, episodes: seq<SonarrEpisode>, numbers: seq<int>, x: Scanned)
    ensures x in Blocks(a, episodes, numbers) <==> exists n :: n in numbers && x in Block(a, episodes, n)
    decreases |numbers|
  {
    if numbers != [] {
      var front, last := numbers[..|numbers| - 1], numbers[|numbers| - 1];
      BlocksHas(a, episodes, front, x);
      BlockMore(a, episodes, front, last);
      assert numbers == front + [last];
    }
  }

  lemma EpisodeTitleIs(source: R.Source, tagged: seq<int> -> bool, s: Show, e: SonarrEpisode, x: Scanned)
    ensures A.InRoot(source, e) && x == EpisodeOf(AboutShow(source, tagged, s), e) <==> EpisodeTitleOf(source, tagged, s, e, x)
  {
    if EpisodeTitleOf(source, tagged, s, e, x) {
      assert x.files == [x.files[0]];
    }
  }

  lemma SeriesTitleIs(source: R.Source, tagged: seq<int> -> bool, s: Show, x: Scanned)
    ensures x == SeriesOf(AboutShow(source, tagged, s), s) <==> SeriesTitle(tagged, s, x)
  {
  }

  lemma PieceIsShown(source: R.Source, tagged: seq<int> -> bool, s: Show, piece: seq<Scanned>, x: Scanned)
    requires Piece(source, tagged, s, piece) && x in piece
    ensures ShowTitle(source, tagged, s, x)
  {
    var a := AboutShow(source, tagged, s);
    var below :| SeasonsOf(a, s.episodes, below) && piece == [SeriesOf(a, s)] + below;
    var numbers :| Sorts(numbers, Numbers(a, s.episodes)) && below == Blocks(a, s.episodes, numbers);
    if x == SeriesOf(a, s) {
      Inhabited(Numbers(a, s.episodes));
      var n :| n in Numbers(a, s.episodes);
      NumbersHas(a, s.episodes, n);
    } else {
      BlocksHas(a, s.episodes, numbers, x);
      var n :| n in numbers && x in Block(a, s.episodes, n);
      InBlock(a, s.episodes, n, x);
      NumbersHas(a, s.episodes, n);
      InSeasonHas(a, s.episodes, n, x);
      if x in InSeason(a, s.episodes, n) {
        var e :| e in s.episodes && MadeInSeason(a, e, n, x);
        EpisodeTitleIs(source, tagged, s, e, x);
      }
    }
  }

  lemma ShownIsInPiece(source: R.Source, tagged: seq<int> -> bool, s: Show, piece: seq<Scanned>, x: Scanned)
    requires Piece(source, tagged, s, piece) && ShowTitle(source, tagged, s, x)
    ensures x in piece
  {
    var a := AboutShow(source, tagged, s);
    var e :| e in s.episodes && A.InRoot(source, e) &&
      (SeriesTitle(tagged, s, x) || SeasonTitleOf(tagged, s, e.season, x) || EpisodeTitleOf(source, tagged, s, e, x));
    NumbersHas(a, s.episodes, e.season);
    var below :| SeasonsOf(a, s.episodes, below) && piece == [SeriesOf(a, s)] + below;
    var numbers :| Sorts(numbers, Numbers(a, s.episodes)) && below == Blocks(a, s.episodes, numbers);
    BlocksHas(a, s.episodes, numbers, x);
    InBlock(a, s.episodes, e.season, x);
    InSeasonHas(a, s.episodes, e.season, x);
    EpisodeTitleIs(source, tagged, s, e, x);
    assert EpisodeTitleOf(source, tagged, s, e, x) ==> MadeInSeason(a, e, e.season, x);
    SeriesTitleIs(source, tagged, s, x);
    assert SeasonTitleOf(tagged, s, e.season, x) ==> x == SeasonOf(a, e.season);
  }

  // ---- what the library holds -----------------------------------------------------------------------

  /** After a refresh from Radarr the library's keyed titles are exactly the movies the answer has for it. */
  lemma RadarrLibraryHolds(source: R.Source, tagged: seq<int> -> bool, movies: seq<RadarrMovie>, c: Catalogue, rf: C.Refresh,
                           es: seq<C.Event>, key: string)
    requires A.MoviesDiffer(source, movies) && rf.titles == MoviesOf(source, tagged, movies)
    requires C.AllFinished(rf, C.Run(rf, C.Begin(c, rf), es))
    ensures Member(rf.library, Keyed(key), rf.source) in C.Run(rf, C.Begin(c, rf), es).c.members <==>
            exists m :: m in movies && m.hasFile && R.Localise(source, m.file.path).Some? && m.tmdbId != 0 && tagged(m.tags) &&
                        key == K.MovieKey(m.tmdbId)
  {
    A.RadarrRefreshCompletesIff(source, tagged, movies, rf, c);
    C.CompletedHoldsTheSnapshot(c, rf, es);
    if C.Tagged(rf, Keyed(key)) {
      var i: nat :| C.TaggedAs(rf, i, Keyed(key));
      MovieTitlesAre(source, tagged, movies, rf.titles[i]);
    }
    forall m | m in movies && m.hasFile && R.Localise(source, m.file.path).Some? && m.tmdbId != 0 && tagged(m.tags) && key == K.MovieKey(m.tmdbId)
      ensures C.Tagged(rf, Keyed(key))
    {
      var k :| 0 <= k < |movies| && movies[k] == m;
      MovieIsListed(source, tagged, movies, k);
      var i :| 0 <= i < |rf.titles| && rf.titles[i] == MovieOf(source, tagged, m);
      assert C.TaggedAs(rf, i, Keyed(key));
    }
  }

  /** The key of a title of the show that is in the library. */
  ghost predicate KeyOfShow(source: R.Source, s: Show, key: string) {
    && s.tmdbId != 0
    && exists e :: e in s.episodes && A.InRoot(source, e) &&
         key in {K.SeriesKey(s.tmdbId), K.SeasonKey(s.tmdbId, e.season), K.EpisodeKey(s.tmdbId, e.season, e.number)}
  }

  lemma KeyHasTitle(source: R.Source, tagged: seq<int> -> bool, s: Show, key: string) returns (x: Scanned)
    requires KeyOfShow(source, s, key)
    ensures ShowTitle(source, tagged, s, x) && x.key == key && (x.tagged <==> tagged(s.tags))
  {
    var a := AboutShow(source, tagged, s);
    var e :| e in s.episodes && A.InRoot(source, e) &&
      key in {K.SeriesKey(s.tmdbId), K.SeasonKey(s.tmdbId, e.season), K.EpisodeKey(s.tmdbId, e.season, e.number)};
    if key == K.SeriesKey(s.tmdbId) {
      x := SeriesOf(a, s);
      SeriesTitleIs(source, tagged, s, x);
    } else if key == K.SeasonKey(s.tmdbId, e.season) {
      x := SeasonOf(a, e.season);
      assert SeasonTitleOf(tagged, s, e.season, x);
    } else {
      x := EpisodeOf(a, e);
      EpisodeTitleIs(source, tagged, s, e, x);
    }
  }

  /** After a refresh from Sonarr they are the series, seasons and episodes on disk of the shows the filter takes. */
  lemma SonarrLibraryHolds(source: R.Source, tagged: seq<int> -> bool, shows: seq<Show>, c: Catalogue, rf: C.Refresh,
                           es: seq<C.Event>, key: string)
    requires A.Sound(source, shows) && Listed(source, tagged, shows, rf.titles)
    requires C.AllFinished(rf, C.Run(rf, C.Begin(c, rf), es))
    ensures Member(rf.library, Keyed(key), rf.source) in C.Run(rf, C.Begin(c, rf), es).c.members <==>
            exists s :: s in shows && tagged(s.tags) && KeyOfShow(source, s, key)
  {
    A.SeriesAnswerIsWellFormed(source, tagged, shows, rf, c);
    C.CompletedHoldsTheSnapshot(c, rf, es);
    SonarrTagged(source, tagged, shows, rf, key);
  }

  lemma SonarrTagged(source: R.Source, tagged: seq<int> -> bool, shows: seq<Show>, rf: C.Refresh, key: string)
    requires Listed(source, tagged, shows, rf.titles)
    ensures C.Tagged(rf, Keyed(key)) <==> exists s :: s in shows && tagged(s.tags) && KeyOfShow(source, s, key)
  {
    if C.Tagged(rf, Keyed(key)) {
      var i: nat :| C.TaggedAs(rf, i, Keyed(key));
      SeriesTitlesAre(source, tagged, shows, rf.titles, rf.titles[i]);
      var s :| s in shows && ShowTitle(source, tagged, s, rf.titles[i]);
      assert KeyOfShow(source, s, key);
    }
    forall s | s in shows && tagged(s.tags) && KeyOfShow(source, s, key)
      ensures C.Tagged(rf, Keyed(key))
    {
      var x := KeyHasTitle(source, tagged, s, key);
      SeriesTitlesAre(source, tagged, shows, rf.titles, x);
      var i :| 0 <= i < |rf.titles| && rf.titles[i] == x;
      assert C.TaggedAs(rf, i, Keyed(key));
    }
  }

  // ---- what the provider is asked -------------------------------------------------------------------

  lemma AsksAboutMovie(id: int, index: Option<int>, parentIndex: Option<int>)
    requires 0 < id <= INT64_MAX
    ensures K.Fetch(K.MovieKey(id), Movie, index, parentIndex) == Some(K.AskMovie(id))
  {
    K.TmdbIDUndoesKey(K.MovieName(id));
  }

  lemma AsksAboutSeries(id: int, index: Option<int>, parentIndex: Option<int>)
    requires 0 < id <= INT64_MAX
    ensures K.Fetch(K.SeriesKey(id), Series, index, parentIndex) == Some(K.AskSeries(id))
  {
    K.TmdbIDUndoesKey(K.SeriesName(id));
  }

  lemma AsksAboutSeason(id: int, season: int, parentIndex: Option<int>)
    requires 0 < id <= INT64_MAX
    ensures K.Fetch(K.SeasonKey(id, season), Season, Some(season), parentIndex) == Some(K.AskSeason(id, season))
  {
    K.TmdbIDUndoesKey(K.SeasonName(id, season));
  }

  lemma AsksAboutEpisode(id: int, season: int, episode: int)
    requires 0 < id <= INT64_MAX
    ensures K.Fetch(K.EpisodeKey(id, season, episode), Episode, Some(episode), Some(season)) == Some(K.AskEpisode(id, season, episode))
  {
    K.TmdbIDUndoesKey(K.EpisodeName(id, season, episode));
  }

  /** The question identification makes of a stored row's columns. */
  function AskedOf(c: Catalogue, key: string): Option<K.Question>
    requires Keyed(key) in c.items
  {
    var row := c.items[Keyed(key)];
    K.Fetch(key, row.kind, row.index, row.parentIndex)
  }

  /** From the row a completed refresh stored, the provider is asked about that movie. */
  lemma StoredMovieAsks(source: R.Source, tagged: seq<int> -> bool, movies: seq<RadarrMovie>, c: Catalogue, rf: C.Refresh,
                        es: seq<C.Event>, m: RadarrMovie)
    requires A.MoviesDiffer(source, movies) && rf.titles == MoviesOf(source, tagged, movies)
    requires C.AllFinished(rf, C.Run(rf, C.Begin(c, rf), es))
    requires m in movies && A.IsTaken(source, m) && 0 < m.tmdbId <= INT64_MAX
    ensures var d, key := C.Run(rf, C.Begin(c, rf), es).c, K.MovieKey(m.tmdbId);
            Keyed(key) in d.items && AskedOf(d, key) == Some(K.AskMovie(m.tmdbId))
  {
    A.RadarrRefreshCompletesIff(source, tagged, movies, rf, c);
    var k :| 0 <= k < |movies| && movies[k] == m;
    MovieIsListed(source, tagged, movies, k);
    var i :| 0 <= i < |rf.titles| && rf.titles[i] == MovieOf(source, tagged, m);
    S.CompletedRowIsTheScan(c, rf, es, i);
    AsksAboutMovie(m.tmdbId, None, None);
  }

  /** From the rows a completed refresh stored, it is asked about that very series, season and episode. */
  lemma StoredEpisodeAsks(source: R.Source, tagged: seq<int> -> bool, shows: seq<Show>, c: Catalogue, rf: C.Refresh,
                          es: seq<C.Event>, s: Show, e: SonarrEpisode)
    requires A.Sound(source, shows) && Listed(source, tagged, shows, rf.titles)
    requires C.AllFinished(rf, C.Run(rf, C.Begin(c, rf), es))
    requires s in shows && e in s.episodes && A.InRoot(source, e) && 0 < s.tmdbId <= INT64_MAX
    ensures var d, id := C.Run(rf, C.Begin(c, rf), es).c, s.tmdbId;
            && Keyed(K.SeriesKey(id)) in d.items && AskedOf(d, K.SeriesKey(id)) == Some(K.AskSeries(id))
            && Keyed(K.SeasonKey(id, e.season)) in d.items
            && AskedOf(d, K.SeasonKey(id, e.season)) == Some(K.AskSeason(id, e.season))
            && Keyed(K.EpisodeKey(id, e.season, e.number)) in d.items
            && AskedOf(d, K.EpisodeKey(id, e.season, e.number)) == Some(K.AskEpisode(id, e.season, e.number))
  {
    A.SeriesAnswerIsWellFormed(source, tagged, shows, rf, c);
    StoredSeriesAsks(source, tagged, shows, c, rf, es, s, e);
    StoredSeasonAsks(source, tagged, shows, c, rf, es, s, e);
    StoredNumbersAsk(source, tagged, shows, c, rf, es, s, e);
  }

  lemma StoredNumbersAsk(source: R.Source, tagged: seq<int> -> bool, shows: seq<Show>, c: Catalogue, rf: C.Refresh,
                         es: seq<C.Event>, s: Show, e: SonarrEpisode)
    requires C.WellFormed(rf) && Listed(source, tagged, shows, rf.titles) && C.AllFinished(rf, C.Run(rf, C.Begin(c, rf), es))
    requires s in shows && e in s.episodes && A.InRoot(source, e) && 0 < s.tmdbId <= INT64_MAX
    ensures var d, key := C.Run(rf, C.Begin(c, rf), es).c, K.EpisodeKey(s.tmdbId, e.season, e.number);
            Keyed(key) in d.items && AskedOf(d, key) == Some(K.AskEpisode(s.tmdbId, e.season, e.number))
  {
    var x := EpisodeOf(AboutShow(source, tagged, s), e);
    EpisodeTitleIs(source, tagged, s, e, x);
    StoredShowTitle(source, tagged, shows, c, rf, es, s, e, x);
    AsksAboutEpisode(s.tmdbId, e.season, e.number);
  }

  lemma StoredSeriesAsks(source: R.Source, tagged: seq<int> -> bool, shows: seq<Show>, c: Catalogue, rf: C.Refresh,
                         es: seq<C.Event>, s: Show, e: SonarrEpisode)
    requires C.WellFormed(rf) && Listed(source, tagged, shows, rf.titles) && C.AllFinished(rf, C.Run(rf, C.Begin(c, rf), es))
    requires s in shows && e in s.episodes && A.InRoot(source, e) && 0 < s.tmdbId <= INT64_MAX
    ensures var d, key := C.Run(rf, C.Begin(c, rf), es).c, K.SeriesKey(s.tmdbId);
            Keyed(key) in d.items && AskedOf(d, key) == Some(K.AskSeries(s.tmdbId))
  {
    var x := SeriesOf(AboutShow(source, tagged, s), s);
    SeriesTitleIs(source, tagged, s, x);
    StoredShowTitle(source, tagged, shows, c, rf, es, s, e, x);
    AsksAboutSeries(s.tmdbId, None, None);
  }

  lemma StoredSeasonAsks(source: R.Source, tagged: seq<int> -> bool, shows: seq<Show>, c: Catalogue, rf: C.Refresh,
                         es: seq<C.Event>, s: Show, e: SonarrEpisode)
    requires C.WellFormed(rf) && Listed(source, tagged, shows, rf.titles) && C.AllFinished(rf, C.Run(rf, C.Begin(c, rf), es))
    requires s in shows && e in s.episodes && A.InRoot(source, e) && 0 < s.tmdbId <= INT64_MAX
    ensures var d, key := C.Run(rf, C.Begin(c, rf), es).c, K.SeasonKey(s.tmdbId, e.season);
            Keyed(key) in d.items && AskedOf(d, key) == Some(K.AskSeason(s.tmdbId, e.season))
  {
    var x := SeasonOf(AboutShow(source, tagged, s), e.season);
    assert SeasonTitleOf(tagged, s, e.season, x);
    StoredShowTitle(source, tagged, shows, c, rf, es, s, e, x);
    AsksAboutSeason(s.tmdbId, e.season, None);
  }

  lemma StoredShowTitle(source: R.Source, tagged: seq<int> -> bool, shows: seq<Show>, c: Catalogue, rf: C.Refresh,
                        es: seq<C.Event>, s: Show, e: SonarrEpisode, x: Scanned)
    requires C.WellFormed(rf) && Listed(source, tagged, shows, rf.titles) && C.AllFinished(rf, C.Run(rf, C.Begin(c, rf), es))
    requires s in shows && e in s.episodes && A.InRoot(source, e) && s.tmdbId != 0
    requires SeriesTitle(tagged, s, x) || SeasonTitleOf(tagged, s, e.season, x) || EpisodeTitleOf(source, tagged, s, e, x)
    ensures var d := C.Run(rf, C.Begin(c, rf), es).c;
            && Keyed(x.key) in d.items && d.items[Keyed(x.key)].kind == x.kind
            && d.items[Keyed(x.key)].index == x.index && d.items[Keyed(x.key)].parentIndex == x.parentIndex
  {
    assert ShowTitle(source, tagged, s, x);
    SeriesTitlesAre(source, tagged, shows, rf.titles, x);
    var i :| 0 <= i < |rf.titles| && rf.titles[i] == x;
    S.CompletedRowIsTheScan(c, rf, es, i);
  }
}
