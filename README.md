# AutoTag core, modelled in Dafny

AutoTag tags and renames movie and TV files. This project models the part
of it that handles one movie file. The pipeline runs in this order:

1. Parse the file name into a title and an optional year.
2. Search TheMovieDB for candidates.
3. Pick a candidate, asking the user when the choice is ambiguous.
4. Fill a `FileMetadata` object with the genre names, the credits and the
   cover URL.
5. Hand the object to the `FileWriter`. The writer writes the tags into
   the file, fetching the cover art through a per-writer cache. It then
   renames the file and its subtitle, stripping characters that are
   invalid in file names.

The model also covers the rename-pattern token (`%N` or `%N:MASK`) and
`FormatRenameNumber`, which renders a number under a `0`/`#` mask.

Modules, one per concern of the source:

| file | module | models |
|---|---|---|
| `common.dfy` | `Common` | Status messages, the configuration and split file paths. String helpers with the semantics of the .NET calls the core makes. The host callbacks (`setStatus`, `setPath`, `selectResult`) as a `Host` class that records every call. |
| `numbers.dfy` | `Numbers` | `int.ToString()`, `int.ToString(mask)` for masks of `0` and `#`, and `int.Parse`. |
| `rename_pattern.dfy` | `RenamePattern` | The token expression `%(?<num>\d+)(?:\:(?<format>[0#]+))?` as a left-to-right scanner, and `FormatRenameNumber`. |
| `file_metadata.dfy` | `Metadata` | The `FileMetadata` class and its defaults, a TagLib tag record, and `WriteToFile`. |
| `file_writer.dfy` | `Writer` | The `FileWriter` class: the cover cache, the lazily built invalid-character set, `WriteAsync`, `RenameFile` and `EscapeFilename`. |
| `movie_processor.dfy` | `Movie` | The `MovieProcessor` class and `ProcessAsync`. |

Each stateful operation is a method on a class. The method's postcondition
ties the new state to a pure specification function:

- `FileWriter.RenameFile` is tied to `RenameSpec`.
- `FileWriter.WriteAsync` is tied to `TagPart` followed by `WriteSpec`.
- `MovieProcessor.ProcessAsync` is tied to `ProcessSpec`.

The lemmas next to each specification function state the properties the
code promises. The collaborators the core cannot see are passed in as
parameters:

| collaborator | modelled as |
|---|---|
| file system and TagLib | a map from paths to contents, plus a set of faults (open, save, move, and whether a picture built from null bytes throws) |
| HTTP | a function from URL to response |
| TheMovieDB | a `Catalog` value: its answers, and the set of requests that throw |
| file-name expression | a function from a name to its groups |
| the user's choice | a function from a list of choices to an optional index |
| `GetFileName` | a function of the metadata and the configuration |

Every effect is recorded in the state:

- statuses, new paths and prompts go into the `Host` logs;
- downloads go into `FileWriter.Downloads`;
- catalog requests go into `MovieProcessor.Requests`.

This makes claims such as "a cached cover is not downloaded again" or "a
stopped call writes nothing" statements about the model.

How exceptions are modelled:

- An exception caught inside the core is a flag, and the catch branch runs
  as in the source.
- An exception that escapes `ProcessAsync` is the outcome `Faulted`. This
  covers a selection index outside the results, a genre id missing from the
  genre table, a year group that `int.Parse` rejects, and a catalog request
  (search, genre list or credits) that throws. The failed request is still
  recorded as sent.
- Some exceptions are raised inside the writer's try block and end in its
  catch:
  - TagLib cannot open the file.
  - The cover URL is null while a cover file name exists; the cache lookup
    rejects a null key.
  - `GetAsync` throws.
  - `Save` fails.
  - A download answers with an error status, and the picture the code then
    builds from the missing (null) bytes throws. Whether TagLib's `Picture`
    constructor throws on null bytes is TagLib's behaviour, which this model
    does not see, so it is a fault flag. When it throws, the tags are not
    saved and a tag-write error follows the download error. When it does
    not, the tags are saved with an empty picture.
- `File.Move` throws when its source is missing or a fault names that
  source.

The model follows the code at the points below, where a user of AutoTag
might expect otherwise:

- A failed subtitle rename makes `WriteAsync` return false. The code ANDs
  it into the result, although a user might expect it to be independent
  of the file's own success. See
  `Writer.WriteResultIsConjunction`.
- A movie without a poster is reported with an Error-level status, not a
  warning.
- The genre list is written only when it is non-null and non-empty, not
  unconditionally.
- A failed cover download fails the file, and when the picture built from
  the missing bytes throws, the tags are not saved either, rather than
  the file only counting as not fully successful.
- The extended fields are written only when the file's MIME type is
  `video/x-matroska`.
- A new `FileMetadata` has a null title. Success and Complete start out
  true.

## Model

| member | source | states |
|---|---|---|
| Common.Replace | autotag.Core/Movie/MovieProcessor.cs:56 | Every '.' in the title becomes ' '; all other characters and the length are kept. |
| Common.RemoveChars | autotag.Core/FileWriter.cs:161 | Splitting on a non-empty set of invalid characters and joining with "" leaves no invalid character. Exactly the valid characters of the input remain. The length is unchanged iff nothing was invalid. |
| Common.RemoveCharsAppend | autotag.Core/FileWriter.cs:161 | Removal commutes with concatenation, so the kept characters keep their order. |
| Common.RemoveCharsKeepsClean | autotag.Core/FileWriter.cs:161 | A name with no invalid character comes out unchanged. |
| Common.RemoveCharsIdempotent | autotag.Core/FileWriter.cs:161 | Removing the same characters a second time changes nothing. |
| Common.FoldCase | autotag.Core/Movie/MovieProcessor.cs:83 | Each lower-case ASCII letter maps to its own upper-case letter (code point minus 32), and every other character is kept, for the case-insensitive title comparison. |
| Common.Host.SelectResult | autotag.Core/Movie/MovieProcessor.cs:85-91 | The selection callback is offered the list once, and its answer is returned. |
| Numbers.Digits | autotag.Core/FileMetadata.cs:54 | The significant decimal digits: none exactly for zero, and never a leading '0'. |
| Numbers.DecimalRoundTrip | autotag.Core/FileMetadata.cs:54 | `value.ToString()` reads back through `int.Parse` as the same value, negatives included. |
| Numbers.MinDigits | autotag.Core/FileMetadata.cs:50 | The digits a mask always shows run from its leftmost '0' to its end: no '0' stands before that place, the place itself holds a '0', and the count is 0 exactly when the mask has no '0'. |
| Numbers.FormatNumber | autotag.Core/FileMetadata.cs:50 | The empty format gives plain decimal. A non-empty mask puts a leading '-' exactly on negative values. |
| Numbers.ZeroMaskPads | autotag.Core/FileMetadata.cs:50 | A mask of k zeros left-pads a non-negative value with '0' to at least k digits, and the padded text still reads as the value. |
| Numbers.FormatRoundTrip | autotag.Core/FileMetadata.cs:50 | Any rendering that shows at least one digit reads back through `int.Parse` as the value. |
| Numbers.HashMaskHidesZero | autotag.Core/FileMetadata.cs:50 | A mask made only of '#' renders zero as the empty string. |
| Numbers.FormatNumberExample | autotag.Core/FileMetadata.cs:50 | 3 under the mask "00" is "03". |
| RenamePattern.MatchAt | autotag.Core/FileMetadata.cs:44 | A token matches at a position iff '%' and a digit stand there, and the match ends after its start and inside the pattern. |
| RenamePattern.MatchAtFacts | autotag.Core/FileMetadata.cs:44 | A match found at a position is well formed, spells out exactly the pattern's text from its start to its end, and is maximal: the digit run and the optional mask are both greedy. |
| RenamePattern.ReadAt | autotag.Core/FileMetadata.cs:44 | The piece read at an offset is a token iff a match starts there, and then it is that match's token. Otherwise it is the character at that offset. |
| RenamePattern.Tokenize | autotag.Core/FileMetadata.cs:44 | Every token read from a pattern has a non-empty digit group and a mask of '0'/'#' only. |
| RenamePattern.TokenizeMatches | autotag.Core/FileMetadata.cs:44 | Each piece read from a pattern is what is read at its own offset, the length of the text before it. So every token is the match starting there, and every literal is a character at which no match starts. |
| RenamePattern.TokenizeRoundTrip | autotag.Core/FileMetadata.cs:44 | Rendering the tokens and literals read from a pattern gives the pattern back, so the successive matches lose no text. |
| RenamePattern.MaskedTokenExample | autotag.Core/FileMetadata.cs:44 | In "S%2:00E" the token at position 1 has number "2" and mask "00", and ends before 'E'. |
| RenamePattern.PlainTokenExample | autotag.Core/FileMetadata.cs:44 | "%4 " reads as the token 4 without a mask, followed by a literal space. |
| RenamePattern.FormatRenameNumber | autotag.Core/FileMetadata.cs:46-56 | The format group is always present. When it is empty the value is plain decimal. The text reads back as the value whenever it shows a digit. A non-negative value gets at least the mask's minimum digit count. |
| RenamePattern.FormatRenameNumberExample | autotag.Core/FileMetadata.cs:46-56 | Token "%3:00" formats 3 as "03". |
| Metadata.FileMetadata.constructor | autotag.Core/FileMetadata.cs:18-22 | A new object has Success and Complete set; the id is 0 and every reference field is null. |
| Metadata.WriteTags | autotag.Core/FileMetadata.cs:24-40 | Title and description always come from the metadata. Genres come from it only when the list is non-null and non-empty. Conductor, performers and roles come from it only with extended tagging on a Matroska file. Pictures, album, comment, year and track are untouched. |
| Metadata.WriteTagsIdempotent | autotag.Core/FileMetadata.cs:24-40 | Writing the same metadata twice gives the same tag as writing it once. |
| Metadata.WriteTagsOverwrites | autotag.Core/FileMetadata.cs:24-40 | The written tag depends on the old tag only through the fields that are not overwritten. |
| Metadata.FileMetadata.WriteToFile | autotag.Core/FileMetadata.cs:24-40 | The file's tag becomes `WriteTags` of its old tag, this metadata, the extended-tagging flag and the file's MIME type. |
| Metadata.TagFile.SetPictures | autotag.Core/FileWriter.cs:54 | Assigning the picture list replaces the pictures and keeps every other field. |
| Writer.InvalidCharSet | autotag.Core/FileWriter.cs:94-99 | The set holds the platform's invalid characters, plus the nine NTFS characters in Windows-safe mode, and nothing else. |
| Writer.ResolveSettles | autotag.Core/FileWriter.cs:92-100 | Once a set is held, resolving again returns it whatever the Windows-safe flag says then. A set built from nothing holds the platform's characters, and the NTFS ones when Windows-safe. |
| Writer.InvalidCharsBuiltOnce | autotag.Core/FileWriter.cs:90-100 | The first call that renames builds the set. Later calls keep it even if Windows-safe mode changes. A call that does not rename leaves it as it was. |
| Writer.Escaping | autotag.Core/FileWriter.cs:159-168 | The escaped name holds no invalid character and keeps every valid one. The warning is raised iff the input held an invalid character and the result differs from the old name. |
| Writer.EscapingCleanName | autotag.Core/FileWriter.cs:159-168 | A name without invalid characters is kept as it is, with no warning. |
| Writer.EscapingKeepsOrder | autotag.Core/FileWriter.cs:161 | Escaping two parts of a name gives the two escaped parts in order. |
| Writer.EscapingIdempotent | autotag.Core/FileWriter.cs:159-168 | An escaped name escapes to itself, with no warning. |
| Writer.FileWriter.EscapeFilename | autotag.Core/FileWriter.cs:159-168 | Returns the escaped name, and sends the warning to the host exactly when `Escaping` raises it. |
| Writer.MoveEntry | autotag.Core/FileWriter.cs:137 | After `File.Move` the content sits at the target and not at the source; every other path is unchanged. |
| Writer.MoveEntryKeepsCount | autotag.Core/FileWriter.cs:137 | A move neither creates nor loses a file. |
| Writer.FileSystem.Move | autotag.Core/FileWriter.cs:137 | The file system becomes `MoveEntry` of the old one. |
| Writer.FileSystem.Save | autotag.Core/FileWriter.cs:61 | Saving stores the tagged content at the file's path. |
| Writer.RenameTarget | autotag.Core/FileWriter.cs:116-124 | The target keeps the source's directory and extension. Its stem holds exactly the new name's valid characters and no invalid one, and a new name without invalid characters becomes the stem unchanged. |
| Writer.RenameOutcome | autotag.Core/FileWriter.cs:113-157 | A rename succeeds iff the target is the current path, or the target is free and the move goes through. It reports a new path iff it succeeded with a changed name. A failure changes no file and ends with an Error status. |
| Writer.RenameUnchangedIsNoop | autotag.Core/FileWriter.cs:126 | When the escaped name equals the current one the call succeeds; nothing moves and no collision is reported. |
| Writer.RenameCollisionFails | autotag.Core/FileWriter.cs:130-134 | An existing file at the target makes the rename fail with the collision error, and nothing changes. |
| Writer.RenameNeverOverwrites | autotag.Core/FileWriter.cs:126-141 | Every other file keeps its path and content. The renamed content lands only at a path that was free. The number of files stays the same. |
| Writer.RenameWarning | autotag.Core/FileWriter.cs:159-165 | The invalid-character warning is among the rename's statuses iff characters were removed and the result differs from the old stem. When present it is the rename's first status. |
| Writer.FileWriter.RenameFile | autotag.Core/FileWriter.cs:113-157 | Result, file system, statuses and reported path are exactly those of `RenameSpec`. |
| Writer.CoverStepCache | autotag.Core/FileWriter.cs:29-55 | The cover step keeps every cache entry, adds only a URL it downloaded, and requests at most one URL. |
| Writer.TagStageFrame | autotag.Core/FileWriter.cs:19-88 | The tag stage touches no file but its own and creates or deletes none. |
| Writer.TagStageCache | autotag.Core/FileWriter.cs:29-66 | The tag stage keeps every cache entry, caches only what it downloaded and requests at most one URL. It succeeds iff it emits the success status. |
| Writer.TagStageSaves | autotag.Core/FileWriter.cs:24-67 | A successful stage saved the file with the metadata's title and description, kept its MIME type, and embedded one picture when cover art was wanted. |
| Writer.CacheHitNoDownload | autotag.Core/FileWriter.cs:32-54 | A cached cover URL is not requested again, the cache is unchanged, and the cached bytes are embedded as "cover.jpg". |
| Writer.DownloadIsCached | autotag.Core/FileWriter.cs:32-39 | An uncached URL is requested once. Its body is stored under the URL and embedded. |
| Writer.RepeatRequestIsHit | autotag.Core/FileWriter.cs:32-38 | After one stage downloads a cover, a later stage for the same URL downloads nothing, whatever the file or the network. |
| Writer.FailedDownloadNotCached | autotag.Core/FileWriter.cs:35-87 | An error-status download is not cached, emits the download error and fails the stage. If the picture built from the missing bytes throws, the tag-write error follows and the file is not saved. Otherwise the tags are saved with an empty picture. |
| Writer.MissingCoverStillSaves | autotag.Core/FileWriter.cs:56-61 | With cover art on but no cover file name, the stage fails silently, yet the tags are written and saved without a picture. |
| Writer.FileWriter.TagAndSave | autotag.Core/FileWriter.cs:19-88 | The try block and its catch yield the result, files, cache, downloads and statuses of `TagStage`. |
| Writer.FileWriter.CoverArt | autotag.Core/FileWriter.cs:29-59 | Whether the region throws, its success flag, the picture list, the cache, the downloads and the statuses are those of `CoverStep`: a cached URL is reused, a missing one downloaded once and cached only on success, a null URL or a transport failure throws, and missing bytes throw or give an empty picture as the fault oracle says. |
| Writer.RenameStageSteps | autotag.Core/FileWriter.cs:102-107 | Renaming the file and then its subtitle, each observed after its call, adds up to `RenameStage`. |
| Writer.FileWriter.RenameWithSubtitle | autotag.Core/FileWriter.cs:102-107 | Both renames are attempted whatever the first one's outcome. The result, files, statuses and new paths are those of `RenameStage`. |
| Writer.WriteResultIsConjunction | autotag.Core/FileWriter.cs:102-107 | With renaming on, the result is true iff tagging, the file's rename and the subtitle's rename (when present) all succeeded. |
| Writer.SubtitleRenamedRegardless | autotag.Core/FileWriter.cs:104-107 | The subtitle is renamed, and its new path reported last, even when tagging or the main rename failed. |
| Writer.UntaggedWriteIsRenameOnly | autotag.Core/FileWriter.cs:17-19 | Without tagging for the file, the cache and the downloads are untouched and the result is the rename stage's alone. With renaming off as well, the result is true and nothing changes. |
| Writer.WriteSpecSteps | autotag.Core/FileWriter.cs:15-111 | The tag part followed by the rename part, each observed after it runs, adds up to `WriteSpec`. |
| Writer.FileWriter.constructor | autotag.Core/FileWriter.cs:10-13 | A new writer has an empty cover cache, has not built its invalid-character set, and has downloaded nothing. The platform's invalid characters it is given are never empty. |
| Writer.FileWriter.BuildInvalidChars | autotag.Core/FileWriter.cs:92-100 | The set is built only while none is held, from the platform's characters and, when Windows-safe, the NTFS ones. An existing set is kept. The set returned is the one held afterwards. |
| Writer.FileWriter.WriteAsync | autotag.Core/FileWriter.cs:15-111 | The result, files, cache, invalid-character set, downloads, statuses and new paths are those of `TagPart` followed by `WriteSpec`. No prompt is made. |
| Movie.ProcessTitle | autotag.Core/Movie/MovieProcessor.cs:43-62 | There is no usable title iff the expression failed or the dotless title is blank. Otherwise every '.' of the title has become a space, the other characters and the length are kept, and the title is not blank. The year group is kept. |
| Movie.YearHintOfDecimal | autotag.Core/Movie/MovieProcessor.cs:72-74 | Any year written as `int.ToString()` writes it is not blank and parses, so the search is narrowed to exactly that year. |
| Movie.RegexYearParses | autotag.Core/Movie/MovieProcessor.cs:34 | A year the expression can capture ("19" or "20" and two digits) always parses, to a year from 1900 to 2099. |
| Movie.YearLabel | autotag.Core/Movie/MovieProcessor.cs:89 | The label is "Unknown" iff the result has no release date; otherwise it reads back as the release year. |
| Movie.Choices | autotag.Core/Movie/MovieProcessor.cs:85-91 | One (title, year label) pair per search result, in result order. |
| Movie.ParseFailureStops | autotag.Core/Movie/MovieProcessor.cs:43-62 | A name that does not parse, or parses to a blank title, returns false with one parse error, before any catalog request or prompt. |
| Movie.SearchNarrowedByYear | autotag.Core/Movie/MovieProcessor.cs:70-79 | After a successful parse exactly one search is made, for the dotless title. It is narrowed by the year iff the year group is not blank. A year that is not a number throws before any request. |
| Movie.SelectionPromptedIff | autotag.Core/Movie/MovieProcessor.cs:74-91 | A search that throws ends the call with no prompt. Otherwise the user is asked iff there are several results and the first one's title differs from the parsed title, ignoring case, or manual mode is on. The list is then offered once. |
| Movie.ChooseOutcomes | autotag.Core/Movie/MovieProcessor.cs:81-112 | No answer skips the file, returning true with a warning. No result returns false, clears Success and reports the not-found error. Otherwise the chosen (or first) result is taken when the index is valid, with the found status. |
| Movie.GenreName | autotag.Core/Movie/MovieProcessor.cs:128 | The name of the first genre with that id; none iff no genre has the id. |
| Movie.GenreNames | autotag.Core/Movie/MovieProcessor.cs:128 | All ids resolve iff the list exists. It has one name per id, in order, each the first match in the table. |
| Movie.DirectorOf | autotag.Core/Movie/MovieProcessor.cs:134 | The name of the first crew member whose job is "Director"; none iff there is no such member. |
| Movie.CastNames | autotag.Core/Movie/MovieProcessor.cs:135 | The actors' names, one per cast member, in cast order. |
| Movie.CastCharacters | autotag.Core/Movie/MovieProcessor.cs:136 | The characters played, one per cast member, in cast order. |
| Movie.CoverUrl | autotag.Core/Movie/MovieProcessor.cs:119 | There is no URL iff the poster path is null or empty. Otherwise the URL starts with the image host's prefix and the poster path reads back from the rest. |
| Movie.CoverUrlInjective | autotag.Core/Movie/MovieProcessor.cs:119 | Two poster paths with the same cover URL are the same path. |
| Movie.CoverFileName | autotag.Core/Movie/MovieProcessor.cs:120 | Null iff the poster path is null. Otherwise it is the poster path without any '/' and with every other character kept. |
| Movie.AssembleCover | autotag.Core/Movie/MovieProcessor.cs:139-143 | The metadata is complete iff the movie has a poster path, and exactly then no cover error is reported. Success is never cleared here. |
| Movie.AssembleGenres | autotag.Core/Movie/MovieProcessor.cs:124-137 | The genre list is requested iff the cached table is empty. A non-empty table is kept, and a failed fetch keeps the empty one. No record is filled iff the genre fetch fails, some id is missing or the credits request fails. Otherwise the genre names follow the movie's ids one for one. |
| Movie.AssembleCredits | autotag.Core/Movie/MovieProcessor.cs:130-137 | Credits are requested iff extended tagging is on for a taggable file and the genre stage got through. Only then are director, actors and characters filled, from those credits. |
| Movie.StoppedCallWritesNothing | autotag.Core/Movie/MovieProcessor.cs:43-110 | A call that stops while parsing or searching returns what that stage decided. It changes no file, no cache entry and no genre table, and reports no new path. |
| Movie.SkippedFileReturnsTrue | autotag.Core/Movie/MovieProcessor.cs:93-101 | A file the user skips returns true, changes nothing and ends with the skip warning. |
| Movie.ProcessReturnsTrueIff | autotag.Core/Movie/MovieProcessor.cs:145-147 | The call returns true iff the file was skipped, or a movie was chosen that has a poster, its genres resolve and the writer succeeded. |
| Movie.GenreTableKept | autotag.Core/Movie/MovieProcessor.cs:124-127 | A non-empty genre table is never replaced. After a chosen movie the table is the cached or the fetched one, unless the fetch threw, which keeps the old table. The genre list is requested only while the table is empty. |
| Movie.CatalogFailureFaults | autotag.Core/Movie/MovieProcessor.cs:74-137 | A search that throws ends the call with an exception; it is the last request, and the state is unchanged. A chosen movie whose metadata cannot be filled (a failed genre or credits request, or a missing genre id) ends with an exception before the writer runs, so no file, cache entry or path changes. |
| Movie.MovieProcessor.constructor | autotag.Core/Movie/MovieProcessor.cs:12-17 | A new processor has an empty genre table and has made no request. |
| Movie.MovieProcessor.ParseFileName | autotag.Core/Movie/MovieProcessor.cs:43-67 | The parsed title and year, or nothing, with the statuses of `ParseSpec`. |
| Movie.MovieProcessor.SearchCatalog | autotag.Core/Movie/MovieProcessor.cs:70-112 | The decision, requests, statuses and prompts of `SearchSpec`: a bad year throws before the request, a failed search throws after it. Success is cleared exactly when nothing was found. |
| Movie.MovieProcessor.ChooseResult | autotag.Core/Movie/MovieProcessor.cs:81-112 | The decision, statuses and prompts are those of `Choose`. Success is cleared exactly when nothing was found. |
| Movie.MovieProcessor.CopySearchResult | autotag.Core/Movie/MovieProcessor.cs:115-122 | Id, title, overview, cover URL, cover file name and date are copied from the chosen result. |
| Movie.MovieProcessor.LoadGenres | autotag.Core/Movie/MovieProcessor.cs:124-127 | The genre list is requested only when the table is empty. It replaces the table unless the request throws, in which case the table is kept and the call reports failure. |
| Movie.MovieProcessor.LoadCredits | autotag.Core/Movie/MovieProcessor.cs:130-137 | One credits request is made. Unless it throws, director, actors and characters come from its answer; if it throws, the metadata is unchanged. |
| Movie.MovieProcessor.FillMetadata | autotag.Core/Movie/MovieProcessor.cs:115-143 | The genre table, the requests and the statuses are those of `AssembleSpec`. The metadata is filled iff the genre fetch and the credits request answer and all genre ids resolve, and it then equals the assembled record. |
| Movie.MovieProcessor.FillFromTable | autotag.Core/Movie/MovieProcessor.cs:128-143 | The metadata is filled iff every genre id resolves in the table and the credits request, when made, answers. It then equals `MovieRecord`. Requests and the cover error follow `FillSpec`. |
| Movie.MovieProcessor.FillAndWrite | autotag.Core/Movie/MovieProcessor.cs:115-147 | Filling the metadata and then writing gives exactly the outcome and effects of `FinishSpec`. |
| Movie.MovieProcessor.ProcessAsync | autotag.Core/Movie/MovieProcessor.cs:19-148 | The outcome, the genre table, the files, the writer's cache and invalid-character set, and everything appended to the logs are those of `ProcessSpec`. |

## Left out

- The file-name regular expression (autotag.Core/Movie/MovieProcessor.cs:31-43) is not interpreted. Its groups are an oracle parameter of each call. `Movie.RegexYearParses` states only what its Year group can hold.
- The regex engine itself is not modelled for the rename token either. `RenamePattern.MatchAt` is a hand-written scanner with the same greedy reading over ASCII digits. `GetFileName`, which uses the token, is abstract in `FileMetadata` and lives in the subclasses, so it is an uninterpreted function parameter.
- RenamePattern.MatchAt: the `num` group reads only the ASCII digits '0' to '9'. Without the ECMAScript option, .NET's `\d` also matches every other Unicode decimal digit (category Nd, such as U+0661 '١'), so a '%' followed by such a digit starts a token in the source but is a literal here.
- RenamePattern.Tokenize: reads a pattern through `MatchAt`, so a '%' followed by a non-ASCII decimal digit stays literal text instead of becoming a token, as described for `MatchAt`.
- TheMovieDB client, the HTTP client and TagLib are not part of this model. They are answers passed in (`Catalog` with its failing requests, `fetch`, the file map with its `Faults`). A catalog failure is modelled only as an exception escaping the call; the exception types are not distinguished.
- Metadata.FileMetadata.WriteToFile: `WriteToFile` is virtual (autotag.Core/FileMetadata.cs:24), and `ProcessAsync` writes through a `MovieFileMetadata`, whose class is not part of this model. The model assumes that subclass does not override `WriteToFile`, so the base method runs. The claim that the year, album and other fields stay untouched rests on that assumption.
- `async`/`await` and `Dispose` are left out; each call runs to completion.
- Status wording is reduced to a severity and an event. The verbose variants and TagLib's `CorruptionReasons` are left out because they change only the text.
- The "unknown year" text of the found status (autotag.Core/Movie/MovieProcessor.cs:112) is part of the wording and left out.
- Paths are (directory, stem, extension) triples compared exactly. Case-insensitive file systems and `Path.Combine` edge cases are left out.
- Writer.FileWriter.WriteAsync: the invalid-character set is a field of the writer, while the source keeps it in a static property shared by every writer (autotag.Core/FileWriter.cs:170). Sharing it across writers is not modelled.
- Common.FoldCase: folds only ASCII letters, while the invariant-culture comparison folds all of Unicode.
- Common.EqualsIgnoreCase: compares the two strings character by character after folding, so strings of different lengths never match. The invariant-culture comparison also ignores code points that carry no weight (such as U+200B) and treats canonically equivalent sequences ('é' and 'e' followed by U+0301) as equal; the model does not.
- Common.RemoveChars: models `Split` with a non-empty separator array only. With an empty array `Split` breaks at white space; the writer always passes the platform's invalid characters, which are never empty.
- Numbers.ParseInt (used by `Movie.YearHintOf`): does not model `int.Parse` accepting surrounding white space, a leading '+', or overflow beyond 32 bits. The years the expression captures are four digits, so none of these arise for them.
- Numbers.Decimal: `ToString()` and `ToString(format)` (autotag.Core/FileMetadata.cs:50,54) use the current culture, whose negative sign need not be '-'. The model writes '-'. The numbers formatted for a file name are not negative in practice.
- Integers are unbounded. The 32-bit range of `int` ids and values is not modelled.
- The unused `_images` table and `subtitleFileExtensions` (autotag.Core/FileWriter.cs:7,174) are left out, as is `MovieFileMetadata`'s `GetFileName`/`ToString`. AutoTag/frmMain.cs is the user interface and is not part of this model.
- On an exception, the source drops the half-filled `result` object. The model does not describe the metadata object after a `Faulted` outcome.
