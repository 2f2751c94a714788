/** MovieProcessor: finds a movie file's entry in TheMovieDB from its file
    name, fills a FileMetadata object from it and hands that to the writer.
    The file-name expression, the catalog client and the user's choice are
    oracles; the processor's genre table is the one piece of state it keeps
    between files. */
module Movie {
  import opened Common
  import opened Numbers
  import opened Metadata
  import opened Writer

  /** The outcome of matching the file-name expression: no match, or the
      text of its Title and Year groups (an unmatched group is ""). */
  datatype FilenameMatch = NoMatch | Matched(Title: string, Year: string)

  datatype SearchMovie = SearchMovie(
    Id: int,
    Title: string,
    Overview: Option<string>,
    PosterPath: Option<string>,
    ReleaseDate: Option<Date>,
    GenreIds: seq<int>)

  datatype Genre = Genre(Id: int, Name: string)
  datatype CrewMember = CrewMember(Job: string, Name: string)
  datatype CastMember = CastMember(Name: string, Character: string)
  datatype Credits = Credits(Crew: seq<CrewMember>, Cast: seq<CastMember>)

  /** The catalog's answers: search results for a query and optional year,
      the movie genre list, and the credits of a movie. A request in
      `Fails` is sent but throws instead of answering. */
  datatype Catalog = Catalog(
    Search: (string, Option<int>) -> seq<SearchMovie>,
    MovieGenres: seq<Genre>,
    MovieCredits: int -> Credits,
    Fails: set<CatalogRequest>)

  /** One request sent to the catalog. */
  datatype CatalogRequest = SearchRequest(Query: string, Year: Option<int>) | GenresRequest | CreditsRequest(MovieId: int)

  /** How ProcessAsync ends: it returns a value, or an exception escapes it. */
  datatype ProcessOutcome = Returned(Value: bool) | Faulted

  const PosterUrlPrefix: string := "https://image.tmdb.org/t/p/original"

  /** Path.GetFileName */
  function FileName(p: FilePath): string {
    p.Stem + p.Ext
  }

  /** The title after dots become spaces; no usable match when the
      expression failed or the title is then blank. */
  function ProcessTitle(m: FilenameMatch): (r: FilenameMatch)
    ensures r.NoMatch? <==> m.NoMatch? || IsBlank(Replace(m.Title, '.', ' '))
    ensures r.Matched? ==> r.Year == m.Year && |r.Title| == |m.Title| && !IsBlank(r.Title)
    ensures r.Matched? ==> forall i :: 0 <= i < |r.Title| ==>
      && r.Title[i] != '.'
      && (m.Title[i] == '.' ==> r.Title[i] == ' ')
      && (m.Title[i] != '.' ==> r.Title[i] == m.Title[i])
  {
    match m
    case NoMatch => NoMatch
    case Matched(title, year) =>
      var t := Replace(title, '.', ' ');
      if IsBlank(t) then NoMatch else Matched(t, year)
  }

  /** How the year group steers the search: not at all when blank, by the
      parsed year otherwise; int.Parse throws on anything else. */
  datatype YearHint = NoYear | ByYear(Year: int) | BadYear

  function YearHintOf(year: string): (h: YearHint)
    ensures h.NoYear? <==> IsBlank(year)
    ensures h.ByYear? ==> ParseInt(year) == Some(h.Year)
    ensures h.BadYear? <==> !IsBlank(year) && ParseInt(year).None?
  {
    if IsBlank(year) then NoYear
    else match ParseInt(year)
      case Some(y) => ByYear(y)
      case None => BadYear
  }

  /** A year written the way int.ToString() writes it always narrows the
      search, to exactly that year. */
  lemma YearHintOfDecimal(v: int)
    ensures YearHintOf(Decimal(v)) == ByYear(v)
  {
    DecimalRoundTrip(v);
    assert !IsWhiteSpace(Decimal(v)[0]);
  }

  function SearchYear(h: YearHint): Option<int> {
    if h.ByYear? then Some(h.Year) else None
  }

  /** What the Year group can hold when it matched: 19 or 20 then two digits. */
  predicate IsRegexYear(year: string) {
    && |year| == 4 && AllDigits(year)
    && ((year[0] == '1' && year[1] == '9') || (year[0] == '2' && year[1] == '0'))
  }

  /** A year the expression captured always parses, to a year of the 1900s
      or 2000s, so the search is narrowed by it. */
  lemma RegexYearParses(year: string)
    requires IsRegexYear(year)
    ensures YearHintOf(year).ByYear?
    ensures 1900 <= YearHintOf(year).Year < 2100
  {
    assert !IsWhiteSpace(year[0]);
    var s3, s2, s1 := year[..3], year[..2], year[..1];
    assert s3[..2] == s2 && s2[..1] == s1 && s1[..0] == [];
    assert ParseDigits(year) == 10 * ParseDigits(s3) + DigitValue(year[3]);
    assert ParseDigits(s3) == 10 * ParseDigits(s2) + DigitValue(year[2]);
    assert ParseDigits(s2) == 10 * ParseDigits(s1) + DigitValue(year[1]);
    assert ParseDigits(s1) == DigitValue(year[0]);
  }

  /** Whether the user is asked to choose: more than one result, and the
      first one's title is not the parsed title (ignoring case) or manual
      mode is on. */
  predicate NeedsSelection(results: seq<SearchMovie>, title: string, manualMode: bool) {
    |results| > 1 && (!EqualsIgnoreCase(results[0].Title, title) || manualMode)
  }

  /** The year shown for a result, "Unknown" when it has no release date. */
  function YearLabel(d: Option<Date>): (s: string)
    ensures d.None? <==> s == "Unknown"
    ensures d.Some? ==> ParseInt(s) == Some(d.value.Year)
  {
    match d
    case None => "Unknown"
    case Some(date) => DecimalRoundTrip(date.Year); Decimal(date.Year)
  }

  function ChoiceOf(m: SearchMovie): Choice {
    Choice(m.Title, YearLabel(m.ReleaseDate))
  }

  /** The list offered to the user: one (title, year) pair per result, in order. */
  function Choices(results: seq<SearchMovie>): (c: seq<Choice>)
    ensures |c| == |results|
    ensures forall i :: 0 <= i < |results| ==> c[i].Title == results[i].Title && c[i].Year == YearLabel(results[i].ReleaseDate)
  {
    Select(results, ChoiceOf)
  }

  /** How the search stage ends: with a return value or an exception, or
      with the movie chosen. */
  datatype Lookup = Stop(Outcome: ProcessOutcome) | Selected(Movie: SearchMovie)

  /** What a stage decided and the statuses, prompts and catalog requests it
      produced; `NotFound` says whether it cleared the metadata's Success flag. */
  datatype LookupResult = LookupResult(
    Decision: Lookup,
    Statuses: seq<Status>,
    Prompts: seq<seq<Choice>>,
    Requests: seq<CatalogRequest>,
    NotFound: bool)

  /** The file-name stage: the dotless title and the year text, or nothing. */
  datatype Parsing = Unparsed | ParsedName(Title: string, Year: string)

  datatype ParseResult = ParseResult(Parsing: Parsing, Statuses: seq<Status>)

  function ParseSpec(name: string, config: Config, parse: string -> FilenameMatch): ParseResult {
    match ProcessTitle(parse(name))
    case NoMatch => ParseResult(Unparsed, [Status(Error, ParseFailed)])
    case Matched(title, year) =>
      ParseResult(ParsedName(title, year), if config.Verbose then [Status(Information, Parsed)] else [])
  }

  /** The result at `index` is taken; an index outside the list throws. */
  function Take(results: seq<SearchMovie>, index: int, prompts: seq<seq<Choice>>): LookupResult {
    if 0 <= index < |results| then
      LookupResult(Selected(results[index]), [Status(Information, Found)], prompts, [], false)
    else
      LookupResult(Stop(Faulted), [], prompts, [], false)
  }

  /** Choosing among the search results. */
  function Choose(results: seq<SearchMovie>, title: string, config: Config, select: seq<Choice> -> Option<int>): LookupResult {
    if NeedsSelection(results, title, config.ManualMode) then
      var choices := Choices(results);
      match select(choices)
      case None => LookupResult(Stop(Returned(true)), [Status(Warning, Skipped)], [choices], [], false)
      case Some(i) => Take(results, i, [choices])
    else if |results| == 0 then
      LookupResult(Stop(Returned(false)), [Status(Error, TitleNotFound)], [], [], true)
    else
      Take(results, 0, [])
  }

  /** The search stage: one search, narrowed by the year when there is one,
      then the choice. A failing search throws. */
  function SearchSpec(title: string, year: string, config: Config, catalog: Catalog,
                      select: seq<Choice> -> Option<int>): LookupResult
  {
    var hint := YearHintOf(year);
    if hint.BadYear? then
      LookupResult(Stop(Faulted), [], [], [], false)
    else
      var request := SearchRequest(title, SearchYear(hint));
      if request in catalog.Fails then
        LookupResult(Stop(Faulted), [], [], [request], false)
      else
        Choose(catalog.Search(title, SearchYear(hint)), title, config, select).(Requests := [request])
  }

  /** Parsing followed by searching. */
  function LookupSpec(name: string, config: Config, catalog: Catalog, parse: string -> FilenameMatch,
                      select: seq<Choice> -> Option<int>): LookupResult
  {
    var p := ParseSpec(name, config, parse);
    match p.Parsing
    case Unparsed => LookupResult(Stop(Returned(false)), p.Statuses, [], [], false)
    case ParsedName(title, year) =>
      var s := SearchSpec(title, year, config, catalog, select);
      s.(Statuses := p.Statuses + s.Statuses)
  }

  /** A file name that does not parse, or parses to a blank title, ends the
      call with false and a parse error, before any catalog request. */
  lemma ParseFailureStops(name: string, config: Config, catalog: Catalog, parse: string -> FilenameMatch,
                          select: seq<Choice> -> Option<int>)
    requires parse(name).NoMatch? || IsBlank(Replace(parse(name).Title, '.', ' '))
    ensures var l := LookupSpec(name, config, catalog, parse, select);
      && l.Decision == Stop(Returned(false)) && l.Statuses == [Status(Error, ParseFailed)]
      && l.Requests == [] && l.Prompts == [] && !l.NotFound
  {
  }

  /** Once the name parses (and its year, if any, is a number) exactly one
      search is made, for the dotless title, narrowed by the year exactly
      when the year group is not blank. A year group that is not a number
      ends the call with an exception before any request. */
  lemma SearchNarrowedByYear(name: string, config: Config, catalog: Catalog, parse: string -> FilenameMatch,
                             select: seq<Choice> -> Option<int>)
    requires ProcessTitle(parse(name)).Matched?
    ensures var l := LookupSpec(name, config, catalog, parse, select);
      var year := parse(name).Year;
      var hint := YearHintOf(year);
      && (hint.BadYear? ==> l.Decision == Stop(Faulted) && l.Requests == [])
      && (!hint.BadYear? ==> l.Requests == [SearchRequest(Replace(parse(name).Title, '.', ' '), SearchYear(hint))])
      && (!hint.BadYear? ==> (l.Requests[0].Year.Some? <==> !IsBlank(year)))
  {
  }

  /** The user is asked exactly when the search returned several results and
      the first does not match the title (or manual mode is on); then the
      list of choices is offered once. */
  lemma SelectionPromptedIff(name: string, config: Config, catalog: Catalog, parse: string -> FilenameMatch,
                             select: seq<Choice> -> Option<int>)
    requires ProcessTitle(parse(name)).Matched?
    requires !YearHintOf(parse(name).Year).BadYear?
    ensures var l := LookupSpec(name, config, catalog, parse, select);
      var title := ProcessTitle(parse(name)).Title;
      var results := catalog.Search(title, SearchYear(YearHintOf(parse(name).Year)));
      var answered := SearchRequest(title, SearchYear(YearHintOf(parse(name).Year))) !in catalog.Fails;
      && (!answered ==> l.Decision == Stop(Faulted) && l.Prompts == [])
      && (l.Prompts != [] <==> answered && NeedsSelection(results, title, config.ManualMode))
      && (l.Prompts != [] ==> l.Prompts == [Choices(results)])
  {
  }

  /** The three ends of choosing: no answer skips the file and returns true,
      no result fails (and clears Success), and otherwise the answer (or the
      first result when nobody was asked) is the movie, when it is a valid
      index. */
  lemma ChooseOutcomes(results: seq<SearchMovie>, title: string, config: Config, select: seq<Choice> -> Option<int>)
    ensures var l := Choose(results, title, config, select);
      var asked := NeedsSelection(results, title, config.ManualMode);
      var index := if asked && select(Choices(results)).Some? then select(Choices(results)).value else 0;
      && (asked && select(Choices(results)).None? ==>
            l.Decision == Stop(Returned(true)) && l.Statuses == [Status(Warning, Skipped)])
      && (l.NotFound <==> !asked && |results| == 0)
      && (l.NotFound ==> l.Decision == Stop(Returned(false)) && l.Statuses == [Status(Error, TitleNotFound)])
      && (l.Decision.Selected? <==> (!asked || select(Choices(results)).Some?) && 0 <= index < |results|)
      && (l.Decision.Selected? ==> l.Decision.Movie == results[index] && l.Statuses == [Status(Information, Found)])
  {
  }

  function GenreName(id: int, table: seq<Genre>): (r: Option<string>)
    ensures r.None? <==> forall j :: 0 <= j < |table| ==> table[j].Id != id
    ensures r.Some? ==> exists j :: 0 <= j < |table| && table[j].Id == id && table[j].Name == r.value
                          && forall k :: 0 <= k < j ==> table[k].Id != id
  {
    match FirstIndex(table, (g: Genre) => g.Id == id)
    case None => None
    case Some(j) => Some(table[j].Name)
  }

  /** The genre names of a movie, in the order of its genre ids; None when
      some id is missing from the table. */
  function GenreNames(ids: seq<int>, table: seq<Genre>): (r: Option<seq<string>>)
    ensures r.Some? <==> forall i :: 0 <= i < |ids| ==> GenreName(ids[i], table).Some?
    ensures r.Some? ==> |r.value| == |ids| && forall i :: 0 <= i < |ids| ==> GenreName(ids[i], table) == Some(r.value[i])
  {
    if ids == [] then Some([])
    else match (GenreName(ids[0], table), GenreNames(ids[1..], table))
      case (Some(n), Some(rest)) => Some([n] + rest)
      case _ => None
  }

  function IsDirector(c: CrewMember): bool {
    c.Job == "Director"
  }

  /** The name of the first crew member whose job is "Director", if any. */
  function DirectorOf(crew: seq<CrewMember>): (r: Option<string>)
    ensures r.None? <==> forall j :: 0 <= j < |crew| ==> crew[j].Job != "Director"
    ensures r.Some? ==> exists j :: 0 <= j < |crew| && crew[j].Job == "Director" && crew[j].Name == r.value
                          && forall k :: 0 <= k < j ==> crew[k].Job != "Director"
  {
    match FirstIndex(crew, IsDirector)
    case None => None
    case Some(j) => Some(crew[j].Name)
  }

  function CastName(c: CastMember): string {
    c.Name
  }

  function CastCharacter(c: CastMember): string {
    c.Character
  }

  /** Actors and the characters they play: parallel lists, in cast order. */
  function CastNames(cast: seq<CastMember>): (r: seq<string>)
    ensures |r| == |cast| && forall i :: 0 <= i < |cast| ==> r[i] == cast[i].Name
  {
    Select(cast, CastName)
  }

  function CastCharacters(cast: seq<CastMember>): (r: seq<string>)
    ensures |r| == |cast| && forall i :: 0 <= i < |cast| ==> r[i] == cast[i].Character
  {
    Select(cast, CastCharacter)
  }

  /** The cover URL: none without a poster path, else the image host's
      prefix and the path. */
  function CoverUrl(posterPath: Option<string>): (r: Option<string>)
    ensures r.None? <==> IsNullOrEmpty(posterPath)
    ensures r.Some? ==> r.value == PosterUrlPrefix + posterPath.value && |r.value| > |PosterUrlPrefix|
    ensures r.Some? ==> r.value[..|PosterUrlPrefix|] == PosterUrlPrefix && r.value[|PosterUrlPrefix|..] == posterPath.value
  {
    if IsNullOrEmpty(posterPath) then None else Some(PosterUrlPrefix + posterPath.value)
  }

  /** Different poster paths give different cover URLs: the path reads
      back from the URL. */
  lemma CoverUrlInjective(p: Option<string>, q: Option<string>)
    requires CoverUrl(p).Some? && CoverUrl(p) == CoverUrl(q)
    ensures p == q
  {
    assert CoverUrl(p).value[|PosterUrlPrefix|..] == p.value;
  }

  /** The cover file name: the poster path without its slashes. */
  function CoverFileName(posterPath: Option<string>): (r: Option<string>)
    ensures r.None? <==> posterPath.None?
    ensures r.Some? ==> '/' !in r.value && forall c :: c != '/' ==> (c in r.value <==> c in posterPath.value)
  {
    match posterPath
    case None => None
    case Some(p) => Some(RemoveChars(p, {'/'}))
  }

  /** The metadata part of a call. */
  datatype AssembleResult = AssembleResult(
    Record: Option<MetadataRecord>,
    Genres: seq<Genre>,
    Requests: seq<CatalogRequest>,
    Statuses: seq<Status>)

  /** The genre table used for a call: the cached one, or the catalog's when
      the cache is empty. */
  function GenreTable(cached: seq<Genre>, catalog: Catalog): seq<Genre> {
    if |cached| == 0 then catalog.MovieGenres else cached
  }

  /** The credits fetched for a call: only with extended tagging on a
      taggable file. */
  function CreditsFor(movie: SearchMovie, catalog: Catalog, config: Config, taggable: bool): Option<Credits> {
    if config.ExtendedTagging && taggable then Some(catalog.MovieCredits(movie.Id)) else None
  }

  function CreditRequests(movie: SearchMovie, credits: Option<Credits>): seq<CatalogRequest> {
    if credits.Some? then [CreditsRequest(movie.Id)] else []
  }

  function GenreRequests(cached: seq<Genre>): seq<CatalogRequest> {
    if |cached| == 0 then [GenresRequest] else []
  }

  function CoverStatuses(movie: SearchMovie): seq<Status> {
    if IsNullOrEmpty(CoverUrl(movie.PosterPath)) then [Status(Error, CoverMissing)] else []
  }

  /** A new metadata object after the search result's own fields are copied
      into it. */
  function CopiedRecord(movie: SearchMovie): MetadataRecord {
    MetadataRecord(movie.Id, Some(movie.Title), movie.Overview, CoverUrl(movie.PosterPath), CoverFileName(movie.PosterPath),
                   true, true, None, None, None, None, movie.ReleaseDate)
  }

  /** The metadata filled from a movie, its genre names and its credits
      (when fetched). */
  function MovieRecord(movie: SearchMovie, names: seq<string>, credits: Option<Credits>): MetadataRecord {
    var coverUrl := CoverUrl(movie.PosterPath);
    MetadataRecord(
      movie.Id, Some(movie.Title), movie.Overview, coverUrl, CoverFileName(movie.PosterPath),
      true, !IsNullOrEmpty(coverUrl),
      if credits.Some? then DirectorOf(credits.value.Crew) else None,
      if credits.Some? then Some(CastNames(credits.value.Cast)) else None,
      if credits.Some? then Some(CastCharacters(credits.value.Cast)) else None,
      Some(names), movie.ReleaseDate)
  }

  /** A record with the director, actors and characters of the credits,
      when there are credits. */
  function WithCredits(r: MetadataRecord, credits: Option<Credits>): MetadataRecord {
    if credits.Some? then
      r.(Director := DirectorOf(credits.value.Crew), Actors := Some(CastNames(credits.value.Cast)),
         Characters := Some(CastCharacters(credits.value.Cast)))
    else r
  }

  /** MovieRecord is the copied search result with the genre names, then the
      credits, then the completeness flag filled in. */
  lemma MovieRecordBuilt(movie: SearchMovie, names: seq<string>, credits: Option<Credits>)
    ensures var r := WithCredits(CopiedRecord(movie).(Genres := Some(names)), credits);
      MovieRecord(movie, names, credits) == r.(Complete := !IsNullOrEmpty(r.CoverURL))
  {
  }

  /** The genre list is requested, and the request fails. */
  predicate GenresFetchFails(cached: seq<Genre>, catalog: Catalog) {
    |cached| == 0 && GenresRequest in catalog.Fails
  }

  /** The credits are requested, and the request fails. */
  predicate CreditsFetchFails(movie: SearchMovie, catalog: Catalog, config: Config, taggable: bool) {
    config.ExtendedTagging && taggable && CreditsRequest(movie.Id) in catalog.Fails
  }

  /** The metadata stage once the genre table is loaded: the genre names (a
      missing id throws), the credits (whose request may throw), the cover. */
  function FillSpec(movie: SearchMovie, table: seq<Genre>, catalog: Catalog, config: Config, taggable: bool): AssembleResult {
    var names := GenreNames(movie.GenreIds, table);
    var credits := CreditsFor(movie, catalog, config, taggable);
    if names.None? then
      AssembleResult(None, table, [], [])
    else if CreditsFetchFails(movie, catalog, config, taggable) then
      AssembleResult(None, table, CreditRequests(movie, credits), [])
    else
      AssembleResult(Some(MovieRecord(movie, names.value, credits)), table, CreditRequests(movie, credits), CoverStatuses(movie))
  }

  /** The metadata stage: the genre table (fetched while the cache is
      empty; a failed fetch throws and keeps the empty table), then FillSpec. */
  function AssembleSpec(movie: SearchMovie, cached: seq<Genre>, catalog: Catalog, config: Config, taggable: bool): AssembleResult {
    if GenresFetchFails(cached, catalog) then
      AssembleResult(None, cached, [GenresRequest], [])
    else
      var f := FillSpec(movie, GenreTable(cached, catalog), catalog, config, taggable);
      f.(Requests := GenreRequests(cached) + f.Requests)
  }

  /** The metadata is complete exactly when the movie has a poster path;
      otherwise the cover error is reported. Success is never cleared here. */
  lemma AssembleCover(movie: SearchMovie, cached: seq<Genre>, catalog: Catalog, config: Config, taggable: bool)
    ensures var a := AssembleSpec(movie, cached, catalog, config, taggable);
      a.Record.Some? ==>
        && a.Record.value.Success
        && (a.Record.value.Complete <==> !IsNullOrEmpty(movie.PosterPath))
        && (a.Record.value.CoverURL.None? <==> IsNullOrEmpty(movie.PosterPath))
        && (a.Record.value.Complete <==> a.Statuses == [])
        && (!a.Record.value.Complete ==> a.Statuses == [Status(Error, CoverMissing)])
  {
  }

  /** The written genres follow the movie's genre ids one for one; the
      genre list is requested only while the cached table is empty, a
      failed fetch keeps the empty table, and a failed fetch, a missing id
      or a failed credits request ends the call. */
  lemma AssembleGenres(movie: SearchMovie, cached: seq<Genre>, catalog: Catalog, config: Config, taggable: bool)
    ensures var a := AssembleSpec(movie, cached, catalog, config, taggable);
      && (GenresRequest in a.Requests <==> |cached| == 0)
      && (|cached| > 0 ==> a.Genres == cached)
      && (|cached| == 0 ==> a.Genres == if GenresRequest in catalog.Fails then cached else catalog.MovieGenres)
      && (a.Record.None? <==>
            || GenresFetchFails(cached, catalog)
            || (exists i :: 0 <= i < |movie.GenreIds| && GenreName(movie.GenreIds[i], a.Genres).None?)
            || CreditsFetchFails(movie, catalog, config, taggable))
      && (a.Record.Some? ==>
            && a.Record.value.Genres.Some? && |a.Record.value.Genres.value| == |movie.GenreIds|
            && forall i :: 0 <= i < |movie.GenreIds| ==>
                 GenreName(movie.GenreIds[i], a.Genres) == Some(a.Record.value.Genres.value[i]))
  {
  }

  /** Credits are requested, and director and cast filled in, only with
      extended tagging on a taggable file. */
  lemma AssembleCredits(movie: SearchMovie, cached: seq<Genre>, catalog: Catalog, config: Config, taggable: bool)
    ensures var a := AssembleSpec(movie, cached, catalog, config, taggable);
      var extended := config.ExtendedTagging && taggable;
      var credits := catalog.MovieCredits(movie.Id);
      && (CreditsRequest(movie.Id) in a.Requests <==>
            extended && !GenresFetchFails(cached, catalog) && GenreNames(movie.GenreIds, a.Genres).Some?)
      && (a.Record.Some? && !extended ==>
            a.Record.value.Director.None? && a.Record.value.Actors.None? && a.Record.value.Characters.None?)
      && (a.Record.Some? && extended ==>
            && a.Record.value.Director == DirectorOf(credits.Crew)
            && a.Record.value.Actors == Some(CastNames(credits.Cast))
            && a.Record.value.Characters == Some(CastCharacters(credits.Cast)))
  {
  }

  /** The state one call reads and may change, besides the host's logs:
      the processor's genre table, the file system and the writer's cover
      cache and invalid-character set. */
  datatype ProcessState = ProcessState(
    Genres: seq<Genre>,
    Files: map<FilePath, Content>,
    Cache: map<string, seq<byte>>,
    InvalidChars: Option<set<char>>)

  /** The inputs of one call: the file, the options, and the oracles for the
      catalog, the file-name expression, the user, the network, file-system
      failures and the rename pattern; `Platform` is the writer's
      platform-invalid characters. */
  datatype Call = Call(
    File: TaggingFile,
    Config: Config,
    Catalog: Catalog,
    Parse: string -> FilenameMatch,
    Select: seq<Choice> -> Option<int>,
    Fetch: string -> HttpResponse,
    Faults: Faults,
    GetFileName: (MetadataRecord, Config) -> string,
    Platform: set<char>)

  /** What one call does: its outcome, the new state, and what it appends
      to the request log, the status log, the prompts, the path updates and
      the downloads. */
  datatype ProcessResult = ProcessResult(
    Outcome: ProcessOutcome,
    State: ProcessState,
    Requests: seq<CatalogRequest>,
    Statuses: seq<Status>,
    Prompts: seq<seq<Choice>>,
    PathUpdates: seq<FilePath>,
    Downloads: seq<string>)

  function CallLookup(c: Call): LookupResult {
    LookupSpec(FileName(c.File.Path), c.Config, c.Catalog, c.Parse, c.Select)
  }

  /** A call that ends before the writer runs: nothing on disk changes. */
  function Unwritten(outcome: ProcessOutcome, s: ProcessState, requests: seq<CatalogRequest>, statuses: seq<Status>,
                     prompts: seq<seq<Choice>>): ProcessResult
  {
    ProcessResult(outcome, s, requests, statuses, prompts, [], [])
  }

  /** The part of a call after the movie is chosen: fill the metadata, then
      write it (when the genre ids all resolve). */
  function FinishSpec(movie: SearchMovie, s: ProcessState, file: TaggingFile, config: Config, catalog: Catalog,
                      fetch: string -> HttpResponse, faults: Faults, getFileName: (MetadataRecord, Config) -> string,
                      platform: set<char>): ProcessResult
  {
    var a := AssembleSpec(movie, s.Genres, catalog, config, file.Taggable);
    if a.Record.None? then
      Unwritten(Faulted, s.(Genres := a.Genres), a.Requests, a.Statuses, [])
    else
      var m := a.Record.value;
      var t := TagPart(s.Files, s.Cache, file, m, config, fetch, faults);
      var w := WriteSpec(t, s.InvalidChars, platform, file, config, faults, getFileName(m, config));
      ProcessResult(Returned(w.Ok && m.Success && m.Complete), ProcessState(a.Genres, w.Files, w.Cache, w.InvalidChars),
                    a.Requests, a.Statuses + w.Statuses, [], w.PathUpdates, w.Downloads)
  }

  /** FinishSpec once the genre ids resolve to the record `m` and the
      writer has produced `w`. */
  lemma FinishWritten(movie: SearchMovie, s: ProcessState, file: TaggingFile, config: Config, catalog: Catalog,
                      fetch: string -> HttpResponse, faults: Faults, getFileName: (MetadataRecord, Config) -> string,
                      platform: set<char>, m: MetadataRecord, w: WriteResult)
    requires AssembleSpec(movie, s.Genres, catalog, config, file.Taggable).Record == Some(m)
    requires w == WriteSpec(TagPart(s.Files, s.Cache, file, m, config, fetch, faults), s.InvalidChars, platform, file,
                            config, faults, getFileName(m, config))
    ensures var a := AssembleSpec(movie, s.Genres, catalog, config, file.Taggable);
      FinishSpec(movie, s, file, config, catalog, fetch, faults, getFileName, platform)
        == ProcessResult(Returned(w.Ok && m.Success && m.Complete), ProcessState(a.Genres, w.Files, w.Cache, w.InvalidChars),
                         a.Requests, a.Statuses + w.Statuses, [], w.PathUpdates, w.Downloads)
  {
  }

  function CallFinish(movie: SearchMovie, s: ProcessState, c: Call): ProcessResult {
    FinishSpec(movie, s, c.File, c.Config, c.Catalog, c.Fetch, c.Faults, c.GetFileName, c.Platform)
  }

  /** ProcessAsync: search, then fill the metadata and write. */
  function ProcessSpec(s: ProcessState, c: Call): ProcessResult {
    var l := CallLookup(c);
    if l.Decision.Stop? then
      Unwritten(l.Decision.Outcome, s, l.Requests, l.Statuses, l.Prompts)
    else
      var f := CallFinish(l.Decision.Movie, s, c);
      f.(Requests := l.Requests + f.Requests, Statuses := l.Statuses + f.Statuses, Prompts := l.Prompts)
  }

  /** A call that stops while parsing or searching (parse failure, skip, no
      result, bad year or index) touches neither the disk, the cache, the
      genre table nor the path, and returns what the search decided. */
  lemma StoppedCallWritesNothing(s: ProcessState, c: Call)
    requires CallLookup(c).Decision.Stop?
    ensures var r := ProcessSpec(s, c);
      && r.Outcome == CallLookup(c).Decision.Outcome
      && r.State == s && r.PathUpdates == [] && r.Downloads == []
  {
  }

  /** A skipped file (the user gave no answer) reports success and changes
      nothing. */
  lemma SkippedFileReturnsTrue(s: ProcessState, c: Call)
    requires ProcessTitle(c.Parse(FileName(c.File.Path))).Matched?
    requires !YearHintOf(c.Parse(FileName(c.File.Path)).Year).BadYear?
    requires SearchRequest(ProcessTitle(c.Parse(FileName(c.File.Path))).Title,
                           SearchYear(YearHintOf(c.Parse(FileName(c.File.Path)).Year))) !in c.Catalog.Fails
    requires var title := ProcessTitle(c.Parse(FileName(c.File.Path))).Title;
      var results := c.Catalog.Search(title, SearchYear(YearHintOf(c.Parse(FileName(c.File.Path)).Year)));
      NeedsSelection(results, title, c.Config.ManualMode) && c.Select(Choices(results)).None?
    ensures var r := ProcessSpec(s, c);
      && r.Outcome == Returned(true) && r.State == s && r.PathUpdates == []
      && r.Statuses[|r.Statuses| - 1] == Status(Warning, Skipped)
  {
  }

  /** The value returned is true exactly when the file was skipped, or when
      the movie was found, its metadata is complete (it has a poster) and
      the writer succeeded. */
  lemma ProcessReturnsTrueIff(s: ProcessState, c: Call)
    ensures var r := ProcessSpec(s, c);
      var l := CallLookup(c);
      r.Outcome == Returned(true) <==>
        || l.Decision == Stop(Returned(true))
        || (&& l.Decision.Selected?
            && !IsNullOrEmpty(l.Decision.Movie.PosterPath)
            && var a := AssembleSpec(l.Decision.Movie, s.Genres, c.Catalog, c.Config, c.File.Taggable);
               && a.Record.Some?
               && var t := TagPart(s.Files, s.Cache, c.File, a.Record.value, c.Config, c.Fetch, c.Faults);
                  WriteSpec(t, s.InvalidChars, c.Platform, c.File, c.Config, c.Faults,
                            c.GetFileName(a.Record.value, c.Config)).Ok)
  {
    var l := CallLookup(c);
    if l.Decision.Selected? {
      AssembleCover(l.Decision.Movie, s.Genres, c.Catalog, c.Config, c.File.Taggable);
    }
  }

  /** The genre table is fetched at most once: after any call that got as
      far as the metadata it is non-empty or the catalog's, and a non-empty
      table is never replaced. */
  lemma GenreTableKept(s: ProcessState, c: Call)
    ensures var r := ProcessSpec(s, c);
      && (|s.Genres| > 0 ==> r.State.Genres == s.Genres)
      && (CallLookup(c).Decision.Selected? && !GenresFetchFails(s.Genres, c.Catalog) ==>
            r.State.Genres == GenreTable(s.Genres, c.Catalog))
      && (GenresFetchFails(s.Genres, c.Catalog) ==> r.State.Genres == s.Genres)
      && (GenresRequest in r.Requests ==> |s.Genres| == 0)
  {
    var l := CallLookup(c);
    assert GenresRequest !in l.Requests;
    if l.Decision.Selected? {
      AssembleGenres(l.Decision.Movie, s.Genres, c.Catalog, c.Config, c.File.Taggable);
    }
  }

  /** A catalog request that throws ends the call with an exception. A
      failed search is the last request and leaves the state as it was; a
      failed genre or credits request (or a missing genre id) stops the call
      before the writer runs, so no file, cache entry or path changes. */
  lemma CatalogFailureFaults(s: ProcessState, c: Call)
    ensures var r := ProcessSpec(s, c);
      var m := ProcessTitle(c.Parse(FileName(c.File.Path)));
      var l := CallLookup(c);
      && (m.Matched? && !YearHintOf(m.Year).BadYear? && SearchRequest(m.Title, SearchYear(YearHintOf(m.Year))) in c.Catalog.Fails ==>
            && r.Outcome == Faulted && r.State == s && r.Prompts == [] && r.PathUpdates == []
            && r.Requests[|r.Requests| - 1] == SearchRequest(m.Title, SearchYear(YearHintOf(m.Year))))
      && (l.Decision.Selected? && AssembleSpec(l.Decision.Movie, s.Genres, c.Catalog, c.Config, c.File.Taggable).Record.None? ==>
            && r.Outcome == Faulted
            && r.State.Files == s.Files && r.State.Cache == s.Cache && r.State.InvalidChars == s.InvalidChars
            && r.PathUpdates == [] && r.Downloads == [])
  {
  }

  /** The processor. `Genres` is the genre table it keeps between files;
      `Requests` records every catalog request. */
  class MovieProcessor {
    var Genres: seq<Genre>
    var Requests: seq<CatalogRequest>

    constructor ()
      ensures Genres == [] && Requests == []
    {
      Genres := [];
      Requests := [];
    }

    /** The file-name region of ProcessAsync. */
    static method ParseFileName(file: TaggingFile, host: Host, config: Config, parse: string -> FilenameMatch)
      returns (parsing: Parsing)
      modifies host`Statuses
      ensures var p := ParseSpec(FileName(file.Path), config, parse);
        parsing == p.Parsing && host.Statuses == old(host.Statuses) + p.Statuses
    {
      var nameMatch := parse(FileName(file.Path));
      if nameMatch.NoMatch? {
        host.SetStatus(Status(Error, ParseFailed));
        return Unparsed;
      }
      var title := Replace(nameMatch.Title, '.', ' ');
      var year := nameMatch.Year;

      if IsBlank(title) {
        host.SetStatus(Status(Error, ParseFailed));
        return Unparsed;
      }

      if config.Verbose {
        host.SetStatus(Status(Information, Parsed));
      }
      return ParsedName(title, year);
    }

    /** The catalog-search region of ProcessAsync. */
    method SearchCatalog(title: string, year: string, host: Host, config: Config, catalog: Catalog,
                         select: seq<Choice> -> Option<int>, result: FileMetadata)
      returns (decision: Lookup)
      modifies this`Requests, host`Statuses, host`Prompts, result`Success
      ensures var s := SearchSpec(title, year, config, catalog, select);
        && decision == s.Decision
        && Requests == old(Requests) + s.Requests
        && host.Statuses == old(host.Statuses) + s.Statuses
        && host.Prompts == old(host.Prompts) + s.Prompts
        && result.Success == (old(result.Success) && !s.NotFound)
    {
      var searchYear: Option<int> := None;
      if !IsBlank(year) {
        searchYear := ParseInt(year);
        if searchYear.None? {
          // int.Parse throws
          return Stop(Faulted);
        }
      }
      Requests := Requests + [SearchRequest(title, searchYear)];
      if SearchRequest(title, searchYear) in catalog.Fails {
        // the catalog client throws
        return Stop(Faulted);
      }
      var results := catalog.Search(title, searchYear);
      decision := ChooseResult(results, title, host, config, select, result);
    }

    /** The selection region of ProcessAsync: ask the user when the choice
        is ambiguous, fail when nothing was found, take the chosen result. */
    static method ChooseResult(results: seq<SearchMovie>, title: string, host: Host, config: Config,
                               select: seq<Choice> -> Option<int>, result: FileMetadata)
      returns (decision: Lookup)
      modifies host`Statuses, host`Prompts, result`Success
      ensures var l := Choose(results, title, config, select);
        && decision == l.Decision
        && host.Statuses == old(host.Statuses) + l.Statuses
        && host.Prompts == old(host.Prompts) + l.Prompts
        && result.Success == (old(result.Success) && !l.NotFound)
    {
      var selected := 0;
      if |results| > 1 && (!EqualsIgnoreCase(results[0].Title, title) || config.ManualMode) {
        var selection := host.SelectResult(Choices(results), select);
        if selection.Some? {
          selected := selection.value;
        } else {
          host.SetStatus(Status(Warning, Skipped));
          return Stop(Returned(true));
        }
      } else if |results| == 0 {
        host.SetStatus(Status(Error, TitleNotFound));
        result.Success := false;
        return Stop(Returned(false));
      }

      if !(0 <= selected < |results|) {
        // the list indexer throws
        return Stop(Faulted);
      }
      var selectedResult := results[selected];
      host.SetStatus(Status(Information, Found));
      return Selected(selectedResult);
    }

    /** Copies what the search result itself says into the metadata. */
    static method CopySearchResult(movie: SearchMovie, result: FileMetadata)
      requires result.Snapshot() == MetadataRecord(0, None, None, None, None, true, true, None, None, None, None, None)
      modifies result`Id, result`Title, result`Overview, result`CoverURL, result`CoverFilename, result`Date
      ensures result.Snapshot() == CopiedRecord(movie)
    {
      result.Id := movie.Id;
      result.Title := Some(movie.Title);
      result.Overview := movie.Overview;
      result.CoverURL := if IsNullOrEmpty(movie.PosterPath) then None else Some(PosterUrlPrefix + movie.PosterPath.value);
      result.CoverFilename := CoverFileName(movie.PosterPath);
      result.Date := movie.ReleaseDate;
    }

    /** Fetches the genre list unless the processor already holds one;
        `loaded` is false when that request throws. */
    method LoadGenres(catalog: Catalog) returns (loaded: bool)
      modifies this`Genres, this`Requests
      ensures loaded == !GenresFetchFails(old(Genres), catalog)
      ensures Genres == if loaded then GenreTable(old(Genres), catalog) else old(Genres)
      ensures Requests == old(Requests) + GenreRequests(old(Genres))
    {
      loaded := true;
      if |Genres| == 0 {
        Requests := Requests + [GenresRequest];
        if GenresRequest in catalog.Fails {
          return false;
        }
        Genres := catalog.MovieGenres;
      }
    }

    /** Fetches a movie's credits and fills director, actors and characters;
        `loaded` is false, and nothing is filled, when the request throws. */
    method LoadCredits(movieId: int, catalog: Catalog, result: FileMetadata) returns (loaded: bool)
      modifies this`Requests, result`Director, result`Actors, result`Characters
      ensures Requests == old(Requests) + [CreditsRequest(movieId)]
      ensures loaded == (CreditsRequest(movieId) !in catalog.Fails)
      ensures result.Snapshot() ==
        if loaded then WithCredits(old(result.Snapshot()), Some(catalog.MovieCredits(movieId))) else old(result.Snapshot())
    {
      Requests := Requests + [CreditsRequest(movieId)];
      if CreditsRequest(movieId) in catalog.Fails {
        return false;
      }
      loaded := true;
      var credits := catalog.MovieCredits(movieId);
      result.Director := DirectorOf(credits.Crew);
      result.Actors := Some(CastNames(credits.Cast));
      result.Characters := Some(CastCharacters(credits.Cast));
    }

    /** The region of ProcessAsync that fills the metadata from the chosen
        movie, the genre table and the credits. */
    method FillMetadata(movie: SearchMovie, file: TaggingFile, host: Host, config: Config, catalog: Catalog,
                        result: FileMetadata)
      returns (filled: bool)
      requires result.Snapshot() == MetadataRecord(0, None, None, None, None, true, true, None, None, None, None, None)
      modifies this, host`Statuses, result
      ensures var a := AssembleSpec(movie, old(Genres), catalog, config, file.Taggable);
        && Genres == a.Genres
        && filled == a.Record.Some?
        && (filled ==> result.Snapshot() == a.Record.value)
        && Requests == old(Requests) + a.Requests
        && host.Statuses == old(host.Statuses) + a.Statuses
    {
      ghost var requests, cached := Requests, Genres;
      CopySearchResult(movie, result);
      var loaded := LoadGenres(catalog);
      if !loaded {
        return false;
      }
      filled := FillFromTable(movie, file, host, config, catalog, result);
      AppendAssoc(requests, GenreRequests(cached), FillSpec(movie, Genres, catalog, config, file.Taggable).Requests);
    }

    /** The genre names, the credits and the cover check, once the search
        result is copied and the genre table is loaded. */
    method FillFromTable(movie: SearchMovie, file: TaggingFile, host: Host, config: Config, catalog: Catalog,
                         result: FileMetadata)
      returns (filled: bool)
      requires result.Snapshot() == CopiedRecord(movie)
      modifies this`Requests, host`Statuses, result
      ensures var f := FillSpec(movie, Genres, catalog, config, file.Taggable);
        && filled == f.Record.Some?
        && (filled ==> result.Snapshot() == f.Record.value)
        && Requests == old(Requests) + f.Requests
        && host.Statuses == old(host.Statuses) + f.Statuses
    {
      var names := GenreNames(movie.GenreIds, Genres);
      if names.None? {
        // First finds no genre with that id and throws
        return false;
      }
      ghost var credits := CreditsFor(movie, catalog, config, file.Taggable);
      MovieRecordBuilt(movie, names.value, credits);
      result.Genres := names;
      assert result.Snapshot() == CopiedRecord(movie).(Genres := names);

      if config.ExtendedTagging && file.Taggable {
        var loaded := LoadCredits(movie.Id, catalog, result);
        if !loaded {
          return false;
        }
      }
      assert result.Snapshot() == WithCredits(CopiedRecord(movie).(Genres := names), credits);

      if IsNullOrEmpty(result.CoverURL) {
        host.SetStatus(Status(Error, CoverMissing));
        result.Complete := false;
      }
      return true;
    }

    /** The end of ProcessAsync once a movie is chosen: fill the metadata,
        report a missing cover, write, and combine the flags. */
    method FillAndWrite(movie: SearchMovie, file: TaggingFile, host: Host, config: Config, writer: FileWriter,
                        fs: FileSystem, catalog: Catalog, fetch: string -> HttpResponse, faults: Faults,
                        getFileName: (MetadataRecord, Config) -> string, result: FileMetadata)
      returns (outcome: ProcessOutcome)
      requires result.Snapshot() == MetadataRecord(0, None, None, None, None, true, true, None, None, None, None, None)
      modifies this, host, writer, fs, result
      ensures var f := FinishSpec(movie, ProcessState(old(Genres), old(fs.Files), old(writer.Cache), old(writer.InvalidFilenameChars)),
                                  file, config, catalog, fetch, faults, getFileName, writer.PlatformInvalidChars);
        && outcome == f.Outcome
        && Genres == f.State.Genres && fs.Files == f.State.Files
        && writer.Cache == f.State.Cache && writer.InvalidFilenameChars == f.State.InvalidChars
        && Requests == old(Requests) + f.Requests
        && host.Statuses == old(host.Statuses) + f.Statuses
        && host.Prompts == old(host.Prompts)
        && host.PathUpdates == old(host.PathUpdates) + f.PathUpdates
        && writer.Downloads == old(writer.Downloads) + f.Downloads
    {
      ghost var s := ProcessState(Genres, fs.Files, writer.Cache, writer.InvalidFilenameChars);
      ghost var a := AssembleSpec(movie, Genres, catalog, config, file.Taggable);
      var filled := FillMetadata(movie, file, host, config, catalog, result);
      if !filled {
        return Faulted;
      }
      ghost var m := a.Record.value;
      ghost var w := WriteSpec(TagPart(fs.Files, writer.Cache, file, m, config, fetch, faults), writer.InvalidFilenameChars,
                               writer.PlatformInvalidChars, file, config, faults, getFileName(m, config));
      FinishWritten(movie, s, file, config, catalog, fetch, faults, getFileName, writer.PlatformInvalidChars, m, w);
      var taggingSuccess := writer.WriteAsync(file, result, fs, host, config, fetch, faults, getFileName);
      outcome := Returned(taggingSuccess && result.Success && result.Complete);
      AppendAssoc(old(host.Statuses), a.Statuses, w.Statuses);
    }

    /** Tags and renames one movie file: parse the name, search, fill the
        metadata, write. */
    method ProcessAsync(file: TaggingFile, host: Host, config: Config, writer: FileWriter, fs: FileSystem,
                        catalog: Catalog, parse: string -> FilenameMatch, select: seq<Choice> -> Option<int>,
                        fetch: string -> HttpResponse, faults: Faults, getFileName: (MetadataRecord, Config) -> string)
      returns (outcome: ProcessOutcome)
      modifies this, host, writer, fs
      ensures var r := ProcessSpec(ProcessState(old(Genres), old(fs.Files), old(writer.Cache), old(writer.InvalidFilenameChars)),
                                   Call(file, config, catalog, parse, select, fetch, faults, getFileName, writer.PlatformInvalidChars));
        && outcome == r.Outcome
        && Genres == r.State.Genres && fs.Files == r.State.Files
        && writer.Cache == r.State.Cache && writer.InvalidFilenameChars == r.State.InvalidChars
        && Requests == old(Requests) + r.Requests
        && host.Statuses == old(host.Statuses) + r.Statuses
        && host.Prompts == old(host.Prompts) + r.Prompts
        && host.PathUpdates == old(host.PathUpdates) + r.PathUpdates
        && writer.Downloads == old(writer.Downloads) + r.Downloads
    {
      ghost var s := ProcessState(Genres, fs.Files, writer.Cache, writer.InvalidFilenameChars);
      ghost var c := Call(file, config, catalog, parse, select, fetch, faults, getFileName, writer.PlatformInvalidChars);
      ghost var requests, statuses := Requests, host.Statuses;
      ghost var l := CallLookup(c);
      ghost var p := ParseSpec(FileName(file.Path), config, parse);

      var result := new FileMetadata();
      var parsing := ParseFileName(file, host, config, parse);
      if parsing.Unparsed? {
        assert l == LookupResult(Stop(Returned(false)), p.Statuses, [], [], false);
        return Returned(false);
      }
      ghost var sr := SearchSpec(parsing.Title, parsing.Year, config, catalog, select);
      assert l == sr.(Statuses := p.Statuses + sr.Statuses);
      var decision := SearchCatalog(parsing.Title, parsing.Year, host, config, catalog, select, result);
      AppendAssoc(statuses, p.Statuses, sr.Statuses);
      if decision.Stop? {
        return decision.Outcome;
      }
      assert !sr.NotFound;
      ghost var f := CallFinish(decision.Movie, s, c);
      outcome := FillAndWrite(decision.Movie, file, host, config, writer, fs, catalog, fetch, faults, getFileName, result);
      AppendAssoc(requests, l.Requests, f.Requests);
      AppendAssoc(statuses, l.Statuses, f.Statuses);
    }
  }
}
