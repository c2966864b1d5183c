/**
 A Sonarr answer as the refresh protocol needs it: when its shows, its episodes and their files differ,
 the titles built from it have one key and one path each and list every parent first.
 */
module Answers {
  import opened Options
  import opened Tables
  import opened Text
  import opened Titles
  import C = Convergence
  import H = Handover
  import K = Keys
  import P = Paths
  import R = SourceRoots
  import T = Retries

  predicate InRoot(source: R.Source, e: SonarrEpisode) {
    e.hasFile && R.Localise(source, e.file.path).Some?
  }

  predicate SameFile(e: SonarrEpisode, f: SonarrEpisode) {
    P.Clean(e.file.path) == P.Clean(f.file.path)
  }

  /** Of the episodes with a file in the root, no two share a season and a number, and no two share a file. */
  ghost predicate EpisodesDiffer(source: R.Source, episodes: seq<SonarrEpisode>) {
    forall i, j :: 0 <= i < j < |episodes| && InRoot(source, episodes[i]) && InRoot(source, episodes[j]) ==>
      && (episodes[i].season, episodes[i].number) != (episodes[j].season, episodes[j].number)
      && !SameFile(episodes[i], episodes[j])
  }

  ghost predicate ShowsDiffer(source: R.Source, s: Show, t: Show) {
    && s.tmdbId != t.tmdbId
    && forall e, f :: e in s.episodes && f in t.episodes && InRoot(source, e) && InRoot(source, f) ==> !SameFile(e, f)
  }

  /** What Sonarr promises of one answer; shows without an identifier are skipped and need not differ. */
  ghost predicate Sound(source: R.Source, shows: seq<Show>) {
    && (forall i :: 0 <= i < |shows| && shows[i].tmdbId != 0 ==> EpisodesDiffer(source, shows[i].episodes))
    && (forall i, j :: 0 <= i < j < |shows| && shows[i].tmdbId != 0 && shows[j].tmdbId != 0 ==> ShowsDiffer(source, shows[i], shows[j]))
  }

  // ---- titles that differ -----------------------------------------------------------------------------

  predicate Apart(x: Scanned, y: Scanned) {
    x.key != y.key && (x.files != [] && y.files != [] ==> x.files[0].path != y.files[0].path)
  }

  ghost predicate AllApart(titles: seq<Scanned>) {
    forall i, j :: 0 <= i < j < |titles| ==> Apart(titles[i], titles[j])
  }

  lemma AllApartAdd(s: seq<Scanned>, t: seq<Scanned>)
    requires AllApart(s) && AllApart(t) && forall x, y :: x in s && y in t ==> Apart(x, y)
    ensures AllApart(s + t)
  {
    forall i, j | 0 <= i < j < |s + t|
      ensures Apart((s + t)[i], (s + t)[j])
    {
      if j < |s| {
      } else if i < |s| {
        assert s[i] in s && t[j - |s|] in t;
      } else {
        assert Apart(t[i - |s|], t[j - |s|]);
      }
    }
  }

  /** What a title of a show was made from. */
  datatype Origin = TheSeries | ASeason(n: int) | AnEpisode(e: SonarrEpisode)

  predicate From(a: About, s: Show, o: Origin, x: Scanned) {
    match o
    case TheSeries => x == SeriesOf(a, s)
    case ASeason(n) => x == SeasonOf(a, n)
    case AnEpisode(e) => InRoot(a.source, e) && x == EpisodeOf(a, e)
  }

  function NameOf(a: About, o: Origin): K.Name {
    match o
    case TheSeries => K.SeriesName(a.tmdbId)
    case ASeason(n) => K.SeasonName(a.tmdbId, n)
    case AnEpisode(e) => K.EpisodeName(a.tmdbId, e.season, e.number)
  }

  /** Titles with different names and different files are apart: keys and local paths are injective. */
  lemma OriginsApart(a: About, s: Show, o: Origin, x: Scanned, b: About, t: Show, p: Origin, y: Scanned)
    requires From(a, s, o, x) && From(b, t, p, y) && a.source == b.source
    requires NameOf(a, o) != NameOf(b, p)
    requires o.AnEpisode? && p.AnEpisode? ==> !SameFile(o.e, p.e)
    ensures Apart(x, y)
  {
    assert x.key == K.KeyOf(NameOf(a, o)) && y.key == K.KeyOf(NameOf(b, p));
    if x.key == y.key {
      K.KeysAreInjective(NameOf(a, o), NameOf(b, p));
    }
    if o.AnEpisode? && p.AnEpisode? && x.files[0].path == y.files[0].path {
      R.LocaliseIsInjective(a.source, o.e.file.path, p.e.file.path);
    }
  }

  lemma TitleFits(a: About, s: Show, o: Origin, x: Scanned)
    requires From(a, s, o, x)
    ensures x.key == K.KeyOf(NameOf(a, o)) && K.Fits(NameOf(a, o), x.kind, x.index, x.parentIndex)
  {
  }

  /** Identification, reading back only the key, kind and index columns a scan wrote, asks about that very title. */
  lemma TitleAsksForItself(a: About, s: Show, o: Origin, x: Scanned)
    requires From(a, s, o, x) && -INT64_MAX - 1 <= a.tmdbId <= INT64_MAX
    ensures K.Fetch(x.key, x.kind, x.index, x.parentIndex) == if a.tmdbId > 0 then Some(K.Asks(NameOf(a, o))) else None
  {
    TitleFits(a, s, o, x);
    K.FetchAsks(NameOf(a, o), x.kind, x.index, x.parentIndex);
  }

  // ---- one show -------------------------------------------------------------------------------------

  lemma {:induction false} InSeasonFrom(a: About, episodes: seq<SonarrEpisode>, n: int, x: Scanned)
    requires x in InSeason(a, episodes, n)
    ensures exists k :: 0 <= k < |episodes| && episodes[k].season == n && From(a, Show(0, "", [], 0, []), AnEpisode(episodes[k]), x)
  {
    var last := |episodes| - 1;
    if x in InSeason(a, episodes[..last], n) {
      InSeasonFrom(a, episodes[..last], n, x);
    } else {
      assert From(a, Show(0, "", [], 0, []), AnEpisode(episodes[last]), x);
    }
  }

  lemma {:induction false} InSeasonApart(a: About, episodes: seq<SonarrEpisode>, n: int)
    requires EpisodesDiffer(a.source, episodes)
    ensures AllApart(InSeason(a, episodes, n))
  {
    if episodes != [] {
      var last := |episodes| - 1;
      var e, before := episodes[last], InSeason(a, episodes[..last], n);
      InSeasonApart(a, episodes[..last], n);
      if e.season == n && Found(a, e).Some? {
        forall x, y | x in before && y in [EpisodeOf(a, e)]
          ensures Apart(x, y)
        {
          EarlierApart(a, episodes, n, x);
        }
        AllApartAdd(before, [EpisodeOf(a, e)]);
      }
    }
  }

  lemma EarlierApart(a: About, episodes: seq<SonarrEpisode>, n: int, x: Scanned)
    requires episodes != [] && EpisodesDiffer(a.source, episodes) && InRoot(a.source, episodes[|episodes| - 1])
    requires x in InSeason(a, episodes[..|episodes| - 1], n)
    ensures Apart(x, EpisodeOf(a, episodes[|episodes| - 1]))
  {
    var last, none := |episodes| - 1, Show(0, "", [], 0, []);
    InSeasonFrom(a, episodes[..last], n, x);
    var k :| 0 <= k < last && From(a, none, AnEpisode(episodes[..last][k]), x);
    OriginsApart(a, none, AnEpisode(episodes[k]), x, a, none, AnEpisode(episodes[last]), EpisodeOf(a, episodes[last]));
  }

  /** Where a title of the seasons listed in `numbers` comes from. */
  ghost predicate InBlocks(a: About, s: Show, numbers: seq<int>, o: Origin, x: Scanned) {
    && From(a, s, o, x) && !o.TheSeries?
    && (o.ASeason? ==> o.n in numbers)
    && (o.AnEpisode? ==> o.e.season in numbers && o.e in s.episodes)
  }

  lemma BlockFrom(a: About, s: Show, n: int, x: Scanned) returns (o: Origin)
    requires x in Block(a, s.episodes, n)
    ensures InBlocks(a, s, [n], o, x)
  {
    if x == SeasonOf(a, n) {
      o := ASeason(n);
    } else {
      InSeasonFrom(a, s.episodes, n, x);
      var k :| 0 <= k < |s.episodes| && s.episodes[k].season == n && From(a, Show(0, "", [], 0, []), AnEpisode(s.episodes[k]), x);
      o := AnEpisode(s.episodes[k]);
    }
  }

  lemma {:induction false} BlocksFrom(a: About, s: Show, numbers: seq<int>, x: Scanned) returns (o: Origin)
    requires x in Blocks(a, s.episodes, numbers)
    ensures InBlocks(a, s, numbers, o, x)
  {
    var last := |numbers| - 1;
    if x in Blocks(a, s.episodes, numbers[..last]) {
      o := BlocksFrom(a, s, numbers[..last], x);
    } else {
      o := BlockFrom(a, s, numbers[last], x);
    }
  }

  lemma SeasonsApart(a: About, s: Show, numbers: seq<int>, n: int, x: Scanned, y: Scanned)
    requires EpisodesDiffer(a.source, s.episodes) && n !in numbers
    requires x in Blocks(a, s.episodes, numbers) && y in Block(a, s.episodes, n)
    ensures Apart(x, y)
  {
    var o := BlocksFrom(a, s, numbers, x);
    var p := BlockFrom(a, s, n, y);
    if o.AnEpisode? && p.AnEpisode? {
      EpisodesFileApart(a.source, s.episodes, o.e, p.e);
    }
    OriginsApart(a, s, o, x, a, s, p, y);
  }

  lemma EpisodesFileApart(source: R.Source, episodes: seq<SonarrEpisode>, e: SonarrEpisode, f: SonarrEpisode)
    requires EpisodesDiffer(source, episodes) && e in episodes && f in episodes && e != f
    requires InRoot(source, e) && InRoot(source, f)
    ensures !SameFile(e, f)
  {
    var i :| 0 <= i < |episodes| && episodes[i] == e;
    var j :| 0 <= j < |episodes| && episodes[j] == f;
    if j < i {
      assert !SameFile(episodes[j], episodes[i]);
    }
  }

  lemma BlockApart(a: About, s: Show, n: int)
    requires EpisodesDiffer(a.source, s.episodes)
    ensures AllApart(Block(a, s.episodes, n))
  {
    var below := InSeason(a, s.episodes, n);
    InSeasonApart(a, s.episodes, n);
    forall x, y | x in [SeasonOf(a, n)] && y in below
      ensures Apart(x, y)
    {
      InSeasonFrom(a, s.episodes, n, y);
      var none := Show(0, "", [], 0, []);
      var k :| 0 <= k < |s.episodes| && From(a, none, AnEpisode(s.episodes[k]), y);
      OriginsApart(a, none, ASeason(n), x, a, none, AnEpisode(s.episodes[k]), y);
    }
    AllApartAdd([SeasonOf(a, n)], below);
  }

  lemma {:induction false} BlocksApart(a: About, s: Show, numbers: seq<int>)
    requires EpisodesDiffer(a.source, s.episodes) && Ascending(numbers)
    ensures AllApart(Blocks(a, s.episodes, numbers))
  {
    if numbers != [] {
      var last := |numbers| - 1;
      var n := numbers[last];
      var before, block := Blocks(a, s.episodes, numbers[..last]), Block(a, s.episodes, n);
      BlocksApart(a, s, numbers[..last]);
      BlockApart(a, s, n);
      forall x, y | x in before && y in block
        ensures Apart(x, y)
      {
        SeasonsApart(a, s, numbers[..last], n, x, y);
      }
      AllApartAdd(before, block);
      assert Blocks(a, s.episodes, numbers) == before + block;
    }
  }

  /** Where a title of a show comes from. */
  ghost predicate InShow(a: About, s: Show, o: Origin, x: Scanned) {
    From(a, s, o, x) && (o.AnEpisode? ==> o.e in s.episodes)
  }

  lemma PieceFrom(source: R.Source, tagged: seq<int> -> bool, s: Show, piece: seq<Scanned>, x: Scanned) returns (o: Origin)
    requires Piece(source, tagged, s, piece) && x in piece
    ensures InShow(AboutShow(source, tagged, s), s, o, x) && s.tmdbId != 0
  {
    var a := AboutShow(source, tagged, s);
    var below :| SeasonsOf(a, s.episodes, below) && piece == [SeriesOf(a, s)] + below;
    var numbers :| Sorts(numbers, Numbers(a, s.episodes)) && below == Blocks(a, s.episodes, numbers);
    if x == SeriesOf(a, s) {
      o := TheSeries;
    } else {
      o := BlocksFrom(a, s, numbers, x);
    }
  }

  lemma PieceApart(source: R.Source, tagged: seq<int> -> bool, s: Show, piece: seq<Scanned>)
    requires Piece(source, tagged, s, piece) && (s.tmdbId != 0 ==> EpisodesDiffer(source, s.episodes))
    ensures AllApart(piece)
  {
    var a := AboutShow(source, tagged, s);
    if Contributes(source, tagged, s) {
      var below :| SeasonsOf(a, s.episodes, below) && piece == [SeriesOf(a, s)] + below;
      var numbers :| Sorts(numbers, Numbers(a, s.episodes)) && below == Blocks(a, s.episodes, numbers);
      BlocksApart(a, s, numbers);
      forall x, y | x in [SeriesOf(a, s)] && y in below
        ensures Apart(x, y)
      {
        var o := BlocksFrom(a, s, numbers, y);
        OriginsApart(a, s, TheSeries, x, a, s, o, y);
      }
      AllApartAdd([SeriesOf(a, s)], below);
    }
  }

  // ---- all shows ------------------------------------------------------------------------------------

  lemma {:induction false} ListedFrom(source: R.Source, tagged: seq<int> -> bool, shows: seq<Show>, titles: seq<Scanned>, x: Scanned)
    returns (i: nat, o: Origin)
    requires Listed(source, tagged, shows, titles) && x in titles
    ensures i < |shows| && InShow(AboutShow(source, tagged, shows[i]), shows[i], o, x) && shows[i].tmdbId != 0
  {
    var before: seq<Scanned>, piece: seq<Scanned> :| ListedLast(source, tagged, shows, titles, before, piece);
    var n := |shows| - 1;
    if x in before {
      i, o := ListedFrom(source, tagged, shows[..n], before, x);
    } else {
      i := n;
      o := PieceFrom(source, tagged, shows[n], piece, x);
    }
  }

  lemma ShowApart(source: R.Source, tagged: seq<int> -> bool, shows: seq<Show>, before: seq<Scanned>, piece: seq<Scanned>, x: Scanned, y: Scanned)
    requires shows != [] && Sound(source, shows) && x in before && y in piece
    requires Listed(source, tagged, shows[..|shows| - 1], before) && Piece(source, tagged, shows[|shows| - 1], piece)
    ensures Apart(x, y)
  {
    var n := |shows| - 1;
    var i, o := ListedFrom(source, tagged, shows[..n], before, x);
    var p := PieceFrom(source, tagged, shows[n], piece, y);
    assert ShowsDiffer(source, shows[i], shows[n]);
    OriginsApart(AboutShow(source, tagged, shows[i]), shows[i], o, x, AboutShow(source, tagged, shows[n]), shows[n], p, y);
  }

  lemma {:induction false} ListedApart(source: R.Source, tagged: seq<int> -> bool, shows: seq<Show>, titles: seq<Scanned>)
    requires Sound(source, shows) && Listed(source, tagged, shows, titles)
    ensures AllApart(titles)
  {
    if shows != [] {
      var before: seq<Scanned>, piece: seq<Scanned> :| ListedLast(source, tagged, shows, titles, before, piece);
      var n := |shows| - 1;
      ListedApart(source, tagged, shows[..n], before);
      PieceApart(source, tagged, shows[n], piece);
      forall x, y | x in before && y in piece
        ensures Apart(x, y)
      {
        ShowApart(source, tagged, shows, before, piece, x, y);
      }
      AllApartAdd(before, piece);
    }
  }

  /** The titles of a sound answer are what the refresh protocol asks of a snapshot. */
  lemma SeriesAnswerIsWellFormed(source: R.Source, tagged: seq<int> -> bool, shows: seq<Show>, rf: C.Refresh, c: Catalogue)
    requires Sound(source, shows) && Listed(source, tagged, shows, rf.titles)
    ensures C.WellFormed(rf) && H.ParentsListed(rf, c)
  {
    ListedApart(source, tagged, shows, rf.titles);
    SeriesListsParentsFirst(source, tagged, shows, rf.titles);
    assert forall i, j :: 0 <= i < j < |rf.titles| ==> Apart(rf.titles[i], rf.titles[j]);
    forall i: nat | i < |rf.titles|
      ensures ParentFound(c, rf.titles[i]) || exists j: nat :: j < i && C.KeyOf(rf, j) == Keyed(rf.titles[i].parentKey)
    {
      var key := rf.titles[i].parentKey;
      assert ParentBefore(rf.titles, i, key);
      if key != "" {
        var j :| 0 <= j < i && rf.titles[j].key == key;
        assert C.KeyOf(rf, j) == Keyed(key);
      }
    }
  }

  /** So a refresh from Sonarr can complete, within its attempts, exactly when no titles have swapped files in a ring. */
  lemma SonarrRefreshCompletesIff(source: R.Source, tagged: seq<int> -> bool, shows: seq<Show>, rf: C.Refresh, c: Catalogue)
    requires Sound(source, shows) && Listed(source, tagged, shows, rf.titles)
    ensures H.CanComplete(c, rf) <==> !H.Stuck(c, rf)
    ensures T.CanStillComplete(rf, T.Untried(c, rf)) <==> !H.Stuck(c, rf)
  {
    SeriesAnswerIsWellFormed(source, tagged, shows, rf, c);
    H.CompletesIffNoRing(c, rf);
    T.FreshCompletesIff(c, rf);
  }

  // ---- movies -----------------------------------------------------------------------------------------

  predicate IsTaken(source: R.Source, m: RadarrMovie) {
    MovieFile(source, m).Some? && m.tmdbId != 0
  }

  /** What Radarr promises of one answer: movies that are taken differ in identifier and in file. */
  ghost predicate MoviesDiffer(source: R.Source, movies: seq<RadarrMovie>) {
    forall i, j :: 0 <= i < j < |movies| && IsTaken(source, movies[i]) && IsTaken(source, movies[j]) ==>
      movies[i].tmdbId != movies[j].tmdbId && P.Clean(movies[i].file.path) != P.Clean(movies[j].file.path)
  }

  lemma TakenFrom(source: R.Source, tagged: seq<int> -> bool, m: RadarrMovie, x: Scanned)
    requires x in Taken(source, tagged, m)
    ensures IsTaken(source, m) && x == MovieOf(source, tagged, m)
  {
  }

  lemma {:induction false} MoviesFrom(source: R.Source, tagged: seq<int> -> bool, movies: seq<RadarrMovie>, x: Scanned) returns (i: nat)
    requires x in MoviesOf(source, tagged, movies)
    ensures i < |movies| && IsTaken(source, movies[i]) && x == MovieOf(source, tagged, movies[i])
  {
    var n := |movies| - 1;
    if x in MoviesOf(source, tagged, movies[..n]) {
      i := MoviesFrom(source, tagged, movies[..n], x);
    } else {
      i := n;
      TakenFrom(source, tagged, movies[n], x);
    }
  }

  lemma {:induction false} MoviesApart(source: R.Source, tagged: seq<int> -> bool, movies: seq<RadarrMovie>)
    requires MoviesDiffer(source, movies)
    ensures AllApart(MoviesOf(source, tagged, movies))
  {
    if movies != [] {
      var n := |movies| - 1;
      var m, before := movies[n], MoviesOf(source, tagged, movies[..n]);
      MoviesApart(source, tagged, movies[..n]);
      if IsTaken(source, m) {
        var last := MovieOf(source, tagged, m);
        forall x, y | x in before && y in [last]
          ensures Apart(x, y)
        {
          var i := MoviesFrom(source, tagged, movies[..n], x);
          MovieApart(source, tagged, movies[i], m);
        }
        AllApartAdd(before, [last]);
      }
    }
  }

  lemma MovieApart(source: R.Source, tagged: seq<int> -> bool, m: RadarrMovie, n: RadarrMovie)
    requires MovieFile(source, m).Some? && MovieFile(source, n).Some?
    requires m.tmdbId != n.tmdbId && P.Clean(m.file.path) != P.Clean(n.file.path)
    ensures Apart(MovieOf(source, tagged, m), MovieOf(source, tagged, n))
  {
    if K.MovieKey(m.tmdbId) == K.MovieKey(n.tmdbId) {
      K.KeysAreInjective(K.MovieName(m.tmdbId), K.MovieName(n.tmdbId));
    }
    if R.Localise(source, m.file.path) == R.Localise(source, n.file.path) {
      R.LocaliseIsInjective(source, m.file.path, n.file.path);
    }
  }

  /** A refresh from Radarr, too, can complete within its attempts exactly when no movies have swapped files in a ring. */
  lemma RadarrRefreshCompletesIff(source: R.Source, tagged: seq<int> -> bool, movies: seq<RadarrMovie>, rf: C.Refresh, c: Catalogue)
    requires MoviesDiffer(source, movies) && rf.titles == MoviesOf(source, tagged, movies)
    ensures C.WellFormed(rf) && H.ParentsListed(rf, c)
    ensures H.CanComplete(c, rf) <==> !H.Stuck(c, rf)
    ensures T.CanStillComplete(rf, T.Untried(c, rf)) <==> !H.Stuck(c, rf)
  {
    MoviesApart(source, tagged, movies);
    assert forall i, j :: 0 <= i < j < |rf.titles| ==> Apart(rf.titles[i], rf.titles[j]);
    forall i: nat | i < |rf.titles|
      ensures |rf.titles[i].files| <= 1 && ParentFound(c, rf.titles[i])
    {
      var k := MoviesFrom(source, tagged, movies, rf.titles[i]);
    }
    H.CompletesIffNoRing(c, rf);
    T.FreshCompletesIff(c, rf);
  }
}
