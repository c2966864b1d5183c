/** Turning what Sonarr and Radarr answer into the titles a refresh writes. */
module Titles {
  import opened Options
  import opened Tables
  import opened Text
  import K = Keys
  import R = SourceRoots
  import C = Convergence

  datatype ArrFile = ArrFile(path: string, dateAdded: int)

  datatype RadarrMovie = RadarrMovie(tmdbId: int, title: string, tags: seq<int>, year: int, hasFile: bool, file: ArrFile)

  datatype SonarrEpisode = SonarrEpisode(title: string, season: int, number: int, hasFile: bool, file: ArrFile)

  datatype Show = Show(tmdbId: int, title: string, tags: seq<int>, year: int, episodes: seq<SonarrEpisode>)

  // ---- names --------------------------------------------------------------------------------------

  predicate Parting(c: char) {
    Blank(c) || c == '.' || c == '_'
  }

  /** The words of a name, dots and underscores counting as blanks; `word` is the one being read. */
  function Words(name: string, word: string): seq<string> {
    if name == "" then (if word == "" then [] else [word])
    else if !Parting(name[0]) then Words(name[1..], word + [name[0]])
    else (if word == "" then [] else [word]) + Words(name[1..], "")
  }

  predicate Article(word: string) {
    word == "the" || word == "a" || word == "an"
  }

  function Spaced(words: seq<string>): string {
    if words == [] then "" else Join(words, ' ')
  }

  /** Lower case, single spaces, no leading article. */
  function SortName(name: string): string {
    var words := Words(Lower(name), "");
    Spaced(if |words| > 1 && Article(words[0]) then words[1..] else words)
  }

  function EpisodeTitle(name: string, number: int): string {
    if name != "" then name else "Episode " + Decimal(number)
  }

  function SeasonTitle(number: int): string {
    if number == 0 then "Specials" else "Season " + Decimal(number)
  }

  function Padded(digits: string, width: nat): string
    decreases width - |digits|
  {
    if |digits| >= width then digits else Padded("0" + digits, width)
  }

  /** %04d. */
  function SeasonSortName(number: int): string {
    if number < 0 then "-" + Padded(Digits(-number), 3) else Padded(Digits(number), 4)
  }

  function Released(year: int): Option<int> {
    if year == 0 then None else Some(year)
  }

  // ---- the tag a library asks for -------------------------------------------------------------------

  datatype Tag = Tag(id: int, name: string)

  ghost predicate FirstNamed(tags: seq<Tag>, name: string, i: nat) {
    i < |tags| && EqualFold(tags[i].name, name) && forall j :: 0 <= j < i ==> !EqualFold(tags[j].name, name)
  }

  /** A library without a filter takes everything; else what has the tag of that name, and none of it is an error. */
  method TagFilter(filter: string, tags: seq<Tag>) returns (tagged: Option<seq<int> -> bool>)
    ensures filter == "" ==> tagged.Some? && forall ids :: tagged.value(ids)
    ensures filter != "" ==> (tagged.None? <==> forall i :: 0 <= i < |tags| ==> !EqualFold(tags[i].name, filter))
    ensures filter != "" && tagged.Some? ==>
              exists i: nat :: FirstNamed(tags, filter, i) && forall ids :: tagged.value(ids) <==> tags[i].id in ids
  {
    if filter == "" {
      return Some((ids: seq<int>) => true);
    }
    for i := 0 to |tags|
      invariant forall j :: 0 <= j < i ==> !EqualFold(tags[j].name, filter)
    {
      if EqualFold(tags[i].name, filter) {
        var id := tags[i].id;
        assert FirstNamed(tags, filter, i);
        return Some((ids: seq<int>) => id in ids);
      }
    }
    tagged := None;
  }

  // ---- movies ---------------------------------------------------------------------------------------

  function MovieFile(source: R.Source, m: RadarrMovie): Option<string> {
    if m.hasFile then R.Localise(source, m.file.path) else None
  }

  /** A movie on disk whose file is outside the root: one of these refuses the whole answer. */
  predicate Astray(source: R.Source, m: RadarrMovie) {
    m.hasFile && R.Localise(source, m.file.path).None?
  }

  function MovieOf(source: R.Source, tagged: seq<int> -> bool, m: RadarrMovie): Scanned
    requires MovieFile(source, m).Some?
  {
    Scanned(K.MovieKey(m.tmdbId), "", tagged(m.tags), Movie, Headline(m.title, SortName(m.title), Released(m.year)), None, None,
            [ScannedFile(MovieFile(source, m).value, m.file.dateAdded)])
  }

  /** What one movie contributes. */
  function Taken(source: R.Source, tagged: seq<int> -> bool, m: RadarrMovie): seq<Scanned> {
    if MovieFile(source, m).Some? && m.tmdbId != 0 then [MovieOf(source, tagged, m)] else []
  }

  /** The movies with a file in the root and an identifier, in the order answered. */
  function MoviesOf(source: R.Source, tagged: seq<int> -> bool, movies: seq<RadarrMovie>): seq<Scanned> {
    if movies == [] then []
    else MoviesOf(source, tagged, movies[..|movies| - 1]) + Taken(source, tagged, movies[|movies| - 1])
  }

  ghost predicate NoneAstray(source: R.Source, movies: seq<RadarrMovie>) {
    forall m :: m in movies ==> !Astray(source, m)
  }

  method TakeMovie(source: R.Source, tagged: seq<int> -> bool, m: RadarrMovie) returns (found: Option<seq<Scanned>>)
    ensures found == if Astray(source, m) then None else Some(Taken(source, tagged, m))
  {
    if !m.hasFile {
      return Some([]);
    }
    var path := R.Localise(source, m.file.path);
    if path.None? {
      return None;
    }
    if m.tmdbId == 0 {
      return Some([]);
    }
    found := Some([MovieOf(source, tagged, m)]);
  }

  lemma MovieAdds(source: R.Source, tagged: seq<int> -> bool, movies: seq<RadarrMovie>, m: RadarrMovie)
    ensures MoviesOf(source, tagged, movies + [m]) == MoviesOf(source, tagged, movies) + Taken(source, tagged, m)
    ensures NoneAstray(source, movies + [m]) <==> NoneAstray(source, movies) && !Astray(source, m)
  {
    assert (movies + [m])[..|movies|] == movies;
    assert m in movies + [m] && forall k :: k in movies ==> k in movies + [m];
  }

  lemma OneAstray(source: R.Source, movies: seq<RadarrMovie>, i: nat)
    requires i < |movies| && Astray(source, movies[i])
    ensures !NoneAstray(source, movies)
  {
    assert movies[i] in movies;
  }

  /** One movie outside the root refuses the whole answer, even a movie that would have been skipped. */
  method MovieTitles(source: R.Source, tagged: seq<int> -> bool, movies: seq<RadarrMovie>) returns (titles: Option<seq<Scanned>>)
    ensures titles == if NoneAstray(source, movies) then Some(MoviesOf(source, tagged, movies)) else None
  {
    var found: seq<Scanned> := [];
    for i := 0 to |movies|
      invariant NoneAstray(source, movies[..i]) && found == MoviesOf(source, tagged, movies[..i])
    {
      var m := movies[i];
      assert movies[..i + 1] == movies[..i] + [m];
      MovieAdds(source, tagged, movies[..i], m);
      var more := TakeMovie(source, tagged, m);
      if more.None? {
        OneAstray(source, movies, i);
        return None;
      }
      found := found + more.value;
    }
    assert movies[..|movies|] == movies;
    titles := Some(found);
  }

  // ---- one show -------------------------------------------------------------------------------------

  /** What the titles of one show are built from. */
  datatype About = About(source: R.Source, tmdbId: int, tagged: bool)

  function Found(a: About, e: SonarrEpisode): Option<string> {
    if e.hasFile then R.Localise(a.source, e.file.path) else None
  }

  function SeriesOf(a: About, s: Show): Scanned {
    Scanned(K.SeriesKey(a.tmdbId), "", a.tagged, Series, Headline(s.title, SortName(s.title), Released(s.year)), None, None, [])
  }

  function SeasonOf(a: About, n: int): Scanned {
    Scanned(K.SeasonKey(a.tmdbId, n), K.SeriesKey(a.tmdbId), a.tagged, Season,
            Headline(SeasonTitle(n), SeasonSortName(n), None), Some(n), None, [])
  }

  function EpisodeOf(a: About, e: SonarrEpisode): Scanned
    requires Found(a, e).Some?
  {
    var name := EpisodeTitle(e.title, e.number);
    Scanned(K.EpisodeKey(a.tmdbId, e.season, e.number), K.SeasonKey(a.tmdbId, e.season), a.tagged, Episode,
            Headline(name, SortName(name), None), Some(e.number), Some(e.season),
            [ScannedFile(Found(a, e).value, e.file.dateAdded)])
  }

  /** The titles of the season's episodes that have a file inside the root, in the order answered. */
  function InSeason(a: About, episodes: seq<SonarrEpisode>, n: int): seq<Scanned> {
    if episodes == [] then []
    else
      var e := episodes[|episodes| - 1];
      InSeason(a, episodes[..|episodes| - 1], n) +
      if e.season == n && Found(a, e).Some? then [EpisodeOf(a, e)] else []
  }

  /** The seasons that have such an episode. */
  function Numbers(a: About, episodes: seq<SonarrEpisode>): set<int> {
    if episodes == [] then {}
    else
      var e := episodes[|episodes| - 1];
      Numbers(a, episodes[..|episodes| - 1]) + if Found(a, e).Some? then {e.season} else {}
  }

  function Block(a: About, episodes: seq<SonarrEpisode>, n: int): seq<Scanned> {
    [SeasonOf(a, n)] + InSeason(a, episodes, n)
  }

  /** Each season followed by its episodes. */
  function Blocks(a: About, episodes: seq<SonarrEpisode>, numbers: seq<int>): seq<Scanned> {
    if numbers == [] then []
    else
      Blocks(a, episodes, numbers[..|numbers| - 1]) + Block(a, episodes, numbers[|numbers| - 1])
  }

  ghost predicate Ascending(numbers: seq<int>) {
    forall j, k :: 0 <= j < k < |numbers| ==> numbers[j] < numbers[k]
  }

  ghost predicate Sorts(numbers: seq<int>, from: set<int>) {
    Ascending(numbers) && forall n :: n in numbers <==> n in from
  }

  /** What seasons answers: the seasons in strictly ascending number, each with its episodes. */
  ghost predicate SeasonsOf(a: About, episodes: seq<SonarrEpisode>, titles: seq<Scanned>) {
    exists numbers :: Sorts(numbers, Numbers(a, episodes)) && titles == Blocks(a, episodes, numbers)
  }

  lemma Inhabited(s: set<int>)
    ensures s == {} || exists x :: x in s
  {
    if forall x :: x !in s {
      assert s == {};
    }
  }

  lemma {:induction false} LeastOf(s: set<int>) returns (m: int)
    requires s != {}
    ensures m in s && forall x :: x in s ==> m <= x
    decreases s
  {
    Inhabited(s);
    var x :| x in s;
    m := x;
    if s - {x} != {} {
      var n := LeastOf(s - {x});
      assert forall y :: y in s ==> y == x || y in s - {x};
      if n < x {
        m := n;
      }
    } else {
      assert s == {x};
    }
  }

  /** slices.Sort, on numbers that are all different. */
  method SortNumbers(numbers: seq<int>) returns (sorted: seq<int>)
    requires forall j, k :: 0 <= j < k < |numbers| ==> numbers[j] != numbers[k]
    ensures Sorts(sorted, set n | n in numbers)
  {
    sorted := [];
    var left := set n | n in numbers;
    while left != {}
      invariant Ascending(sorted) && forall j, x :: 0 <= j < |sorted| && x in left ==> sorted[j] < x
      invariant forall n :: n in numbers <==> n in sorted || n in left
      decreases left
    {
      ghost var least := LeastOf(left);
      var m :| m in left && forall x :: x in left ==> m <= x;
      sorted, left := sorted + [m], left - {m};
    }
  }

  /** The episodes grouped so far. */
  ghost predicate Grouped(a: About, episodes: seq<SonarrEpisode>, numbers: seq<int>, byNumber: map<int, seq<Scanned>>) {
    && byNumber.Keys == Numbers(a, episodes)
    && (forall n :: n in numbers <==> n in byNumber)
    && (forall j, k :: 0 <= j < k < |numbers| ==> numbers[j] != numbers[k])
    && (forall n :: n in byNumber ==> byNumber[n] == InSeason(a, episodes, n))
  }

  method FileUnder(numbers: seq<int>, byNumber: map<int, seq<Scanned>>, n: int, t: Scanned)
    returns (numbers': seq<int>, byNumber': map<int, seq<Scanned>>)
    ensures numbers' == if n in byNumber then numbers else numbers + [n]
    ensures byNumber' == byNumber[n := (if n in byNumber then byNumber[n] else []) + [t]]
  {
    numbers', byNumber' := numbers, byNumber;
    if n !in byNumber' {
      numbers' := numbers' + [n];
      byNumber' := byNumber'[n := []];
    }
    byNumber' := byNumber'[n := byNumber'[n] + [t]];
  }

  method Group(a: About, episodes: seq<SonarrEpisode>) returns (numbers: seq<int>, byNumber: map<int, seq<Scanned>>)
    ensures Grouped(a, episodes, numbers, byNumber)
  {
    numbers, byNumber := [], map[];
    for i := 0 to |episodes|
      invariant Grouped(a, episodes[..i], numbers, byNumber)
    {
      var e := episodes[i];
      assert episodes[..i + 1] == episodes[..i] + [e];
      if Found(a, e).Some? {
        ghost var numbers0, byNumber0 := numbers, byNumber;
        numbers, byNumber := FileUnder(numbers, byNumber, e.season, EpisodeOf(a, e));
        GroupedTakes(a, episodes[..i], e, numbers0, byNumber0, numbers, byNumber);
      } else {
        GroupedSkips(a, episodes[..i], e, numbers, byNumber);
      }
    }
    assert episodes[..|episodes|] == episodes;
  }

  lemma EpisodeAdds(a: About, episodes: seq<SonarrEpisode>, e: SonarrEpisode, n: int)
    ensures Numbers(a, episodes + [e]) == Numbers(a, episodes) + if Found(a, e).Some? then {e.season} else {}
    ensures InSeason(a, episodes + [e], n) ==
            InSeason(a, episodes, n) + if e.season == n && Found(a, e).Some? then [EpisodeOf(a, e)] else []
  {
    assert (episodes + [e])[..|episodes|] == episodes;
  }

  lemma GroupedSkips(a: About, episodes: seq<SonarrEpisode>, e: SonarrEpisode, numbers: seq<int>, byNumber: map<int, seq<Scanned>>)
    requires Grouped(a, episodes, numbers, byNumber) && Found(a, e).None?
    ensures Grouped(a, episodes + [e], numbers, byNumber)
  {
    EpisodeAdds(a, episodes, e, e.season);
    forall n | n in byNumber
      ensures InSeason(a, episodes + [e], n) == byNumber[n]
    {
      EpisodeAdds(a, episodes, e, n);
    }
  }

  lemma OneGroupTakes(a: About, episodes: seq<SonarrEpisode>, e: SonarrEpisode, n: int, before: seq<Scanned>)
    requires InSeason(a, episodes, n) == before && Found(a, e).Some?
    ensures InSeason(a, episodes + [e], n) == if n == e.season then before + [EpisodeOf(a, e)] else before
  {
    EpisodeAdds(a, episodes, e, n);
  }

  lemma GroupedTakes(a: About, episodes: seq<SonarrEpisode>, e: SonarrEpisode, numbers: seq<int>, byNumber: map<int, seq<Scanned>>,
                     numbers': seq<int>, byNumber': map<int, seq<Scanned>>)
    requires Grouped(a, episodes, numbers, byNumber) && Found(a, e).Some?
    requires numbers' == if e.season in byNumber then numbers else numbers + [e.season]
    requires byNumber' == byNumber[e.season := (if e.season in byNumber then byNumber[e.season] else []) + [EpisodeOf(a, e)]]
    ensures Grouped(a, episodes + [e], numbers', byNumber')
  {
    EpisodeAdds(a, episodes, e, e.season);
    NothingInSeason(a, episodes, e.season);
    forall n | n in byNumber'
      ensures InSeason(a, episodes + [e], n) == byNumber'[n]
    {
      OneGroupTakes(a, episodes, e, n, if n in byNumber then byNumber[n] else []);
    }
  }

  lemma {:induction false} NothingInSeason(a: About, episodes: seq<SonarrEpisode>, n: int)
    ensures n !in Numbers(a, episodes) <==> InSeason(a, episodes, n) == []
  {
    if episodes != [] {
      NothingInSeason(a, episodes[..|episodes| - 1], n);
    }
  }

  lemma BlocksAdd(a: About, episodes: seq<SonarrEpisode>, numbers: seq<int>, k: nat)
    requires k < |numbers|
    ensures Blocks(a, episodes, numbers[..k + 1]) ==
            (Blocks(a, episodes, numbers[..k]) + [SeasonOf(a, numbers[k])]) + InSeason(a, episodes, numbers[k])
  {
    assert numbers[..k + 1][..k] == numbers[..k];
  }

  method Seasons(a: About, episodes: seq<SonarrEpisode>) returns (titles: seq<Scanned>)
    ensures SeasonsOf(a, episodes, titles)
    ensures titles == [] <==> Numbers(a, episodes) == {}
  {
    var numbers, byNumber := Group(a, episodes);
    var sorted := SortNumbers(numbers);
    assert Sorts(sorted, Numbers(a, episodes));
    titles := [];
    for k := 0 to |sorted|
      invariant titles == Blocks(a, episodes, sorted[..k])
      invariant k > 0 ==> titles != []
    {
      BlocksAdd(a, episodes, sorted, k);
      assert sorted[k] in sorted;
      titles := titles + [SeasonOf(a, sorted[k])];
      titles := titles + byNumber[sorted[k]];
    }
    assert sorted[..|sorted|] == sorted;
    if |sorted| > 0 {
      assert sorted[0] in Numbers(a, episodes);
    } else {
      assert forall n :: n in Numbers(a, episodes) ==> n in sorted;
      Inhabited(Numbers(a, episodes));
    }
  }

  // ---- nothing lost, nothing invented ---------------------------------------------------------------

  /** The episode titles of season n, wherever they stand. */
  function Select(titles: seq<Scanned>, n: int): seq<Scanned> {
    if titles == [] then []
    else
      var t := titles[|titles| - 1];
      Select(titles[..|titles| - 1], n) + if t.kind == Episode && t.parentIndex == Some(n) then [t] else []
  }

  lemma {:induction false} SelectAdds(s: seq<Scanned>, t: seq<Scanned>, n: int)
    ensures Select(s + t, n) == Select(s, n) + Select(t, n)
  {
    if t == [] {
      assert s + t == s;
    } else {
      assert (s + t)[..|s| + |t| - 1] == s + t[..|t| - 1];
      SelectAdds(s, t[..|t| - 1], n);
    }
  }

  lemma {:induction false} SelectInSeason(a: About, episodes: seq<SonarrEpisode>, m: int, n: int)
    ensures Select(InSeason(a, episodes, m), n) == if m == n then InSeason(a, episodes, n) else []
  {
    if episodes != [] {
      var e := episodes[|episodes| - 1];
      SelectInSeason(a, episodes[..|episodes| - 1], m, n);
      if e.season == m && Found(a, e).Some? {
        var t := EpisodeOf(a, e);
        var before := InSeason(a, episodes[..|episodes| - 1], m);
        SelectAdds(before, [t], n);
        assert InSeason(a, episodes, m) == before + [t];
        assert [t][..0] == [];
        assert Select([t], n) == if m == n then [t] else [];
      } else {
        assert InSeason(a, episodes, m) == InSeason(a, episodes[..|episodes| - 1], m);
      }
    }
  }

  lemma SelectBlock(a: About, episodes: seq<SonarrEpisode>, m: int, n: int)
    ensures Select(Block(a, episodes, m), n) == if m == n then InSeason(a, episodes, n) else []
  {
    SelectAdds([SeasonOf(a, m)], InSeason(a, episodes, m), n);
    SelectInSeason(a, episodes, m, n);
    assert [SeasonOf(a, m)][..0] == [];
  }

  lemma {:induction false} SelectBlocks(a: About, episodes: seq<SonarrEpisode>, numbers: seq<int>, n: int)
    requires Ascending(numbers)
    ensures Select(Blocks(a, episodes, numbers), n) == if n in numbers then InSeason(a, episodes, n) else []
  {
    if numbers != [] {
      var k := |numbers| - 1;
      assert numbers == numbers[..k] + [numbers[k]] && numbers[k] !in numbers[..k];
      SelectBlocks(a, episodes, numbers[..k], n);
      SelectAdds(Blocks(a, episodes, numbers[..k]), Block(a, episodes, numbers[k]), n);
      SelectBlock(a, episodes, numbers[k], n);
    }
  }

  /** For every number, the season's episodes among the titles are exactly those answered with a file in the root, in order. */
  lemma SeasonsLoseNothing(a: About, episodes: seq<SonarrEpisode>, titles: seq<Scanned>, n: int)
    requires SeasonsOf(a, episodes, titles)
    ensures Select(titles, n) == InSeason(a, episodes, n)
  {
    var numbers :| Sorts(numbers, Numbers(a, episodes)) && titles == Blocks(a, episodes, numbers);
    SelectBlocks(a, episodes, numbers, n);
    NothingInSeason(a, episodes, n);
  }

  // ---- all shows ------------------------------------------------------------------------------------

  function AboutShow(source: R.Source, tagged: seq<int> -> bool, show: Show): About {
    About(source, show.tmdbId, tagged(show.tags))
  }

  /** A show contributes nothing without an identifier or without a file, else the series and its seasons. */
  predicate Contributes(source: R.Source, tagged: seq<int> -> bool, show: Show) {
    show.tmdbId != 0 && Numbers(AboutShow(source, tagged, show), show.episodes) != {}
  }

  ghost predicate Piece(source: R.Source, tagged: seq<int> -> bool, show: Show, piece: seq<Scanned>) {
    var a := AboutShow(source, tagged, show);
    if !Contributes(source, tagged, show) then piece == []
    else exists below :: SeasonsOf(a, show.episodes, below) && piece == [SeriesOf(a, show)] + below
  }

  method PieceFor(source: R.Source, tagged: seq<int> -> bool, show: Show) returns (piece: seq<Scanned>)
    ensures Piece(source, tagged, show, piece)
  {
    piece := [];
    if show.tmdbId != 0 {
      var a := About(source, show.tmdbId, tagged(show.tags));
      var below := Seasons(a, show.episodes);
      if |below| > 0 {
        piece := [SeriesOf(a, show)];
        piece := piece + below;
      }
    }
  }

  /** The titles of all shows, one piece after the other. */
  ghost predicate Listed(source: R.Source, tagged: seq<int> -> bool, shows: seq<Show>, titles: seq<Scanned>) {
    if shows == [] then titles == []
    else exists before, piece :: ListedLast(source, tagged, shows, titles, before, piece)
  }

  ghost predicate ListedLast(source: R.Source, tagged: seq<int> -> bool, shows: seq<Show>, titles: seq<Scanned>,
                             before: seq<Scanned>, piece: seq<Scanned>)
    requires shows != []
  {
    var n := |shows| - 1;
    titles == before + piece && Listed(source, tagged, shows[..n], before) && Piece(source, tagged, shows[n], piece)
  }

  lemma ListedAdds(source: R.Source, tagged: seq<int> -> bool, shows: seq<Show>, i: nat, titles: seq<Scanned>, piece: seq<Scanned>)
    requires i < |shows| && Listed(source, tagged, shows[..i], titles) && Piece(source, tagged, shows[i], piece)
    ensures Listed(source, tagged, shows[..i + 1], titles + piece)
  {
    var longer := shows[..i + 1];
    assert longer[..i] == shows[..i] && longer[i] == shows[i];
    assert ListedLast(source, tagged, longer, titles + piece, titles, piece);
  }

  method SeriesTitles(source: R.Source, tagged: seq<int> -> bool, shows: seq<Show>) returns (titles: seq<Scanned>)
    ensures Listed(source, tagged, shows, titles)
  {
    titles := [];
    for i := 0 to |shows|
      invariant Listed(source, tagged, shows[..i], titles)
    {
      var piece := PieceFor(source, tagged, shows[i]);
      ListedAdds(source, tagged, shows, i, titles, piece);
      titles := titles + piece;
    }
    assert shows[..|shows|] == shows;
  }

  // ---- parents before children ------------------------------------------------------------------------

  /** Every parent named is the key of an earlier title. */
  ghost predicate ParentsEarlier(titles: seq<Scanned>) {
    forall i :: 0 <= i < |titles| ==> ParentBefore(titles, i, titles[i].parentKey)
  }

  ghost predicate ParentBefore(titles: seq<Scanned>, i: int, key: string) {
    key == "" || exists j :: 0 <= j < i && j < |titles| && titles[j].key == key
  }

  lemma ParentsEarlierAdd(s: seq<Scanned>, t: seq<Scanned>)
    requires ParentsEarlier(s)
    requires forall i :: 0 <= i < |t| ==> ParentBefore(s, |s|, t[i].parentKey) || ParentBefore(t, i, t[i].parentKey)
    ensures ParentsEarlier(s + t)
  {
    forall i | 0 <= i < |s + t|
      ensures ParentBefore(s + t, i, (s + t)[i].parentKey)
    {
      var key := (s + t)[i].parentKey;
      if key != "" {
        if i < |s| {
          assert ParentBefore(s, i, key);
          var j :| 0 <= j < i && s[j].key == key;
          assert (s + t)[j] == s[j];
        } else if ParentBefore(s, |s|, key) {
          var j :| 0 <= j < |s| && s[j].key == key;
          assert (s + t)[j] == s[j];
        } else {
          assert ParentBefore(t, i - |s|, key);
          var j :| 0 <= j < i - |s| && t[j].key == key;
          assert (s + t)[|s| + j] == t[j];
        }
      }
    }
  }

  lemma {:induction false} InSeasonHangs(a: About, episodes: seq<SonarrEpisode>, n: int)
    ensures forall i :: 0 <= i < |InSeason(a, episodes, n)| ==>
              InSeason(a, episodes, n)[i].parentKey == K.SeasonKey(a.tmdbId, n) && |InSeason(a, episodes, n)[i].files| == 1
  {
    if episodes != [] {
      InSeasonHangs(a, episodes[..|episodes| - 1], n);
    }
  }

  /** A season and its episodes, below titles that list the series. */
  lemma BlockHangs(a: About, episodes: seq<SonarrEpisode>, n: int, before: seq<Scanned>)
    requires before != [] && before[0].key == K.SeriesKey(a.tmdbId) && ParentsEarlier(before) && C.OneFileEach(before)
    ensures ParentsEarlier(before + Block(a, episodes, n))
    ensures C.OneFileEach(before + Block(a, episodes, n))
  {
    var below := InSeason(a, episodes, n);
    var block := Block(a, episodes, n);
    InSeasonHangs(a, episodes, n);
    forall i | 0 <= i < |block|
      ensures ParentBefore(before, |before|, block[i].parentKey) || ParentBefore(block, i, block[i].parentKey)
    {
      if i > 0 {
        assert block[i] == below[i - 1] && block[0].key == block[i].parentKey;
      }
    }
    ParentsEarlierAdd(before, block);
  }

  lemma AppendAssociates(a: seq<Scanned>, b: seq<Scanned>, c: seq<Scanned>)
    ensures a + (b + c) == (a + b) + c
  {
  }

  lemma {:induction false} BlocksHang(a: About, show: Show, episodes: seq<SonarrEpisode>, numbers: seq<int>)
    requires show.tmdbId == a.tmdbId
    ensures var titles := [SeriesOf(a, show)] + Blocks(a, episodes, numbers);
            ParentsEarlier(titles) && C.OneFileEach(titles)
  {
    var first := [SeriesOf(a, show)];
    if numbers == [] {
      assert first + Blocks(a, episodes, numbers) == first;
    } else {
      var k := |numbers| - 1;
      var before := first + Blocks(a, episodes, numbers[..k]);
      BlocksHang(a, show, episodes, numbers[..k]);
      BlockHangs(a, episodes, numbers[k], before);
      AppendAssociates(first, Blocks(a, episodes, numbers[..k]), Block(a, episodes, numbers[k]));
    }
  }

  lemma PieceHangs(source: R.Source, tagged: seq<int> -> bool, show: Show, piece: seq<Scanned>)
    requires Piece(source, tagged, show, piece)
    ensures ParentsEarlier(piece) && C.OneFileEach(piece)
  {
    if Contributes(source, tagged, show) {
      var a := AboutShow(source, tagged, show);
      var below :| SeasonsOf(a, show.episodes, below) && piece == [SeriesOf(a, show)] + below;
      var numbers :| Sorts(numbers, Numbers(a, show.episodes)) && below == Blocks(a, show.episodes, numbers);
      BlocksHang(a, show, show.episodes, numbers);
    }
  }

  lemma OneFileEachAdd(s: seq<Scanned>, t: seq<Scanned>)
    requires C.OneFileEach(s) && C.OneFileEach(t)
    ensures C.OneFileEach(s + t)
  {
  }

  /** In the titles of any answer every parent comes earlier, and each title has at most one file. */
  lemma {:induction false} SeriesListsParentsFirst(source: R.Source, tagged: seq<int> -> bool, shows: seq<Show>, titles: seq<Scanned>)
    requires Listed(source, tagged, shows, titles)
    ensures ParentsEarlier(titles) && C.OneFileEach(titles)
  {
    if shows != [] {
      var before: seq<Scanned>, piece: seq<Scanned> :| ListedLast(source, tagged, shows, titles, before, piece);
      var n := |shows| - 1;
      SeriesListsParentsFirst(source, tagged, shows[..n], before);
      PieceHangs(source, tagged, shows[n], piece);
      assert forall i: nat :: i < |piece| ==> ParentBefore(piece, i, piece[i].parentKey);
      ParentsEarlierAdd(before, piece);
      OneFileEachAdd(before, piece);
    }
  }
}
