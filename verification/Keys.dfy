/** The keys that identify a title across sources, and the provider identifier read back from them. */
module Keys {
  import opened Options
  import opened Tables
  import opened Text

  const PROVIDER := "tmdb"

  function MovieKey(id: int): string {
    Join(["movie", PROVIDER, Decimal(id)], ':')
  }

  function SeriesKey(id: int): string {
    Join(["series", PROVIDER, Decimal(id)], ':')
  }

  function SeasonKey(id: int, season: int): string {
    Join(["season", PROVIDER, Decimal(id), Decimal(season)], ':')
  }

  function EpisodeKey(id: int, season: int, episode: int): string {
    Join(["episode", PROVIDER, Decimal(id), Decimal(season), Decimal(episode)], ':')
  }

  function TmdbID(key: string): Option<int> {
    var parts := Split(key, {':'});
    if |parts| < 3 || parts[1] != PROVIDER then None
    else
      match Atoi(parts[2])
      case None => None
      case Some(id) => if id <= 0 then None else Some(id)
  }

  /** What a key is printed from. */
  datatype Name =
    | MovieName(id: int)
    | SeriesName(id: int)
    | SeasonName(id: int, season: int)
    | EpisodeName(id: int, season: int, episode: int)

  function KeyOf(n: Name): string {
    match n
    case MovieName(id) => MovieKey(id)
    case SeriesName(id) => SeriesKey(id)
    case SeasonName(id, season) => SeasonKey(id, season)
    case EpisodeName(id, season, episode) => EpisodeKey(id, season, episode)
  }

  function Parts(n: Name): seq<string> {
    match n
    case MovieName(id) => ["movie", PROVIDER, Decimal(id)]
    case SeriesName(id) => ["series", PROVIDER, Decimal(id)]
    case SeasonName(id, season) => ["season", PROVIDER, Decimal(id), Decimal(season)]
    case EpisodeName(id, season, episode) => ["episode", PROVIDER, Decimal(id), Decimal(season), Decimal(episode)]
  }

  lemma KeySplits(n: Name)
    ensures Split(KeyOf(n), {':'}) == Parts(n)
  {
    DecimalHasNo(n.id, ':');
    match n
    case MovieName(_) => SplitUndoesJoin(Parts(n), ':');
    case SeriesName(_) => SplitUndoesJoin(Parts(n), ':');
    case SeasonName(_, season) =>
      DecimalHasNo(season, ':');
      SplitUndoesJoin(Parts(n), ':');
    case EpisodeName(_, season, episode) =>
      DecimalHasNo(season, ':');
      DecimalHasNo(episode, ':');
      SplitUndoesJoin(Parts(n), ':');
  }

  lemma PartsAreInjective(m: Name, n: Name)
    requires Parts(m) == Parts(n)
    ensures m == n
  {
    assert Parts(m)[0] == Parts(n)[0] && Parts(m)[2] == Parts(n)[2] && |Parts(m)| == |Parts(n)|;
    assert |"movie"| == 5 && |"series"| == 6 && "season"[2] != "series"[2] && |"episode"| == 7;
    DecimalIsInjective(m.id, n.id);
    if m.SeasonName? {
      assert Parts(m)[3] == Parts(n)[3];
      DecimalIsInjective(m.season, n.season);
    } else if m.EpisodeName? {
      assert Parts(m)[3] == Parts(n)[3] && Parts(m)[4] == Parts(n)[4];
      DecimalIsInjective(m.season, n.season);
      DecimalIsInjective(m.episode, n.episode);
    }
  }

  /** The four printers are injective and no two of them ever print the same key. */
  lemma KeysAreInjective(m: Name, n: Name)
    requires KeyOf(m) == KeyOf(n)
    ensures m == n
  {
    KeySplits(m);
    KeySplits(n);
    PartsAreInjective(m, n);
  }

  lemma KeysAreNotEmpty(n: Name)
    ensures KeyOf(n) != ""
  {
    KeySplits(n);
    assert |Split("", {':'})| == 1;
  }

  /** The provider identifier comes back from every key exactly when it is positive. */
  lemma TmdbIDUndoesKey(n: Name)
    requires -INT64_MAX - 1 <= n.id <= INT64_MAX
    ensures TmdbID(KeyOf(n)) == if n.id > 0 then Some(n.id) else None
  {
    KeySplits(n);
    AtoiUndoesDecimal(n.id);
    assert Parts(n)[2] == Decimal(n.id);
  }

  // ---- which question the provider is asked -------------------------------------------------------

  datatype Question = AskMovie(id: int) | AskSeries(id: int) | AskSeason(id: int, season: int) | AskEpisode(id: int, season: int, episode: int)

  /** The dispatch of an identification; None is an item nothing can be asked about. */
  function Fetch(key: string, kind: Kind, index: Option<int>, parentIndex: Option<int>): Option<Question> {
    match TmdbID(key)
    case None => None
    case Some(id) =>
      match kind
      case Movie => Some(AskMovie(id))
      case Series => Some(AskSeries(id))
      case Season => if index.Some? then Some(AskSeason(id, index.value)) else None
      case Episode => if index.Some? && parentIndex.Some? then Some(AskEpisode(id, parentIndex.value, index.value)) else None
      case _ => None
  }

  /** The columns written beside the key of a title. */
  predicate Fits(n: Name, kind: Kind, index: Option<int>, parentIndex: Option<int>) {
    match n
    case MovieName(_) => kind == Movie
    case SeriesName(_) => kind == Series
    case SeasonName(_, season) => kind == Season && index == Some(season)
    case EpisodeName(_, season, episode) => kind == Episode && index == Some(episode) && parentIndex == Some(season)
  }

  /** The question a title's own numbers make up. */
  function Asks(n: Name): Question {
    match n
    case MovieName(id) => AskMovie(id)
    case SeriesName(id) => AskSeries(id)
    case SeasonName(id, season) => AskSeason(id, season)
    case EpisodeName(id, season, episode) => AskEpisode(id, season, episode)
  }

  lemma FetchAsks(n: Name, kind: Kind, index: Option<int>, parentIndex: Option<int>)
    requires -INT64_MAX - 1 <= n.id <= INT64_MAX && Fits(n, kind, index, parentIndex)
    ensures Fetch(KeyOf(n), kind, index, parentIndex) == if n.id > 0 then Some(Asks(n)) else None
  {
    TmdbIDUndoesKey(n);
  }
}
