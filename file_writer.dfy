/** FileWriter: writes a file's tags (with cover art fetched through a
    per-writer cache) and renames the file and its subtitle, reporting every
    step through the host callbacks. The file system, the HTTP client and
    TagLib's open/save are oracles: a map of existing files, a response
    function and a set of faults. */
module Writer {
  import opened Common
  import opened Metadata

  /** The outcome of GetAsync followed by ReadAsByteArrayAsync. */
  datatype HttpResponse =
    | Downloaded(Body: seq<byte>)   // a success status code and its body
    | ErrorStatus(Code: int)        // any other status code
    | TransportFailure              // the request or the read threw

  /** What is stored at a path: a media file TagLib can open, or a file it
      rejects when opening. */
  datatype Content = Media(MimeType: string, Tag: Tag) | Unsupported

  /** Failures of the foreign calls that the file system map does not decide:
      opening or saving the tagged file, and moving a given source path.
      `NullPictureThrows` says whether TagLib's Picture constructor throws
      when handed the null bytes of a failed download; when it does not, the
      picture it builds is empty. */
  datatype Faults = Faults(OpenFails: bool, SaveFails: bool, MoveFails: set<FilePath>, NullPictureThrows: bool)

  /** The characters NTFS forbids in a file name. */
  const NtfsInvalidChars: set<char> := {'<', '>', ':', '"', '/', '\\', '|', '?', '*'}

  /** The file name under which the cover picture is embedded. */
  const CoverPictureName: string := "cover.jpg"

  /** The invalid-character set built on first use: the platform's invalid
      file-name characters, with the NTFS ones added in Windows-safe mode. */
  function InvalidCharSet(platform: set<char>, windowsSafe: bool): (s: set<char>)
    ensures platform <= s
    ensures windowsSafe ==> NtfsInvalidChars <= s
    ensures forall c :: c in s ==> c in platform || (windowsSafe && c in NtfsInvalidChars)
  {
    if windowsSafe then platform + NtfsInvalidChars else platform
  }

  /** The set a rename uses: the one already built, if any, else a new one. */
  function ResolveInvalidChars(current: Option<set<char>>, platform: set<char>, windowsSafe: bool): (s: set<char>)
    ensures current.Some? ==> s == current.value
    ensures current.None? ==> s == InvalidCharSet(platform, windowsSafe)
  {
    match current
    case Some(chars) => chars
    case None => InvalidCharSet(platform, windowsSafe)
  }

  /** Once a set is held, resolving again returns it, whatever the
      Windows-safe flag says then: the set is built at most once. */
  lemma ResolveSettles(current: Option<set<char>>, platform: set<char>, windowsSafe: bool, laterWindowsSafe: bool)
    ensures var s := ResolveInvalidChars(current, platform, windowsSafe);
      && ResolveInvalidChars(Some(s), platform, laterWindowsSafe) == s
      && (current.None? ==> platform <= s && (windowsSafe ==> NtfsInvalidChars <= s))
  {
  }

  /** The escaped name and whether the removal warning is emitted. */
  datatype Escaped = Escaped(Name: string, Warned: bool)

  /** Escaping a new file name: every invalid character is dropped, and the
      warning is raised when that dropped something and the result is not
      simply the old name. */
  function Escaping(filename: string, oldFilename: string, invalid: set<char>): (e: Escaped)
    ensures forall i :: 0 <= i < |e.Name| ==> e.Name[i] !in invalid
    ensures forall c :: c in e.Name <==> c in filename && c !in invalid
    ensures e.Warned <==> e.Name != oldFilename && exists i :: 0 <= i < |filename| && filename[i] in invalid
  {
    var result := RemoveChars(filename, invalid);
    Escaped(result, result != oldFilename && |result| != |filename|)
  }

  /** A name with no invalid character is kept as it is, without a warning. */
  lemma EscapingCleanName(filename: string, oldFilename: string, invalid: set<char>)
    requires forall i :: 0 <= i < |filename| ==> filename[i] !in invalid
    ensures Escaping(filename, oldFilename, invalid) == Escaped(filename, false)
  {
    RemoveCharsKeepsClean(filename, invalid);
  }

  /** Escaping keeps the order of the kept characters: escaping a name in two
      parts gives the two escaped parts one after the other. */
  lemma EscapingKeepsOrder(a: string, b: string, oldFilename: string, invalid: set<char>)
    ensures Escaping(a + b, oldFilename, invalid).Name
         == Escaping(a, oldFilename, invalid).Name + Escaping(b, oldFilename, invalid).Name
  {
    RemoveCharsAppend(a, b, invalid);
  }

  /** An escaped name escapes to itself, with no warning. */
  lemma EscapingIdempotent(filename: string, oldFilename: string, invalid: set<char>)
    ensures var once := Escaping(filename, oldFilename, invalid).Name;
      Escaping(once, oldFilename, invalid) == Escaped(once, false)
  {
    var once := Escaping(filename, oldFilename, invalid).Name;
    EscapingCleanName(once, oldFilename, invalid);
  }

  /** The files after a successful File.Move: the content now lives at `dst`. */
  function MoveEntry(files: map<FilePath, Content>, src: FilePath, dst: FilePath): (r: map<FilePath, Content>)
    requires src in files && dst !in files
    ensures dst in r && r[dst] == files[src] && src !in r
    ensures forall p :: p != src && p != dst ==> (p in r <==> p in files)
    ensures forall p :: p != src && p != dst && p in files ==> r[p] == files[p]
  {
    (files - {src})[dst := files[src]]
  }

  /** A move neither creates nor loses a file. */
  lemma MoveEntryKeepsCount(files: map<FilePath, Content>, src: FilePath, dst: FilePath)
    requires src in files && dst !in files
    ensures |MoveEntry(files, src, dst)| == |files|
  {
    var r := MoveEntry(files, src, dst);
    assert r.Keys == (files.Keys - {src}) + {dst};
    assert |files.Keys - {src}| == |files.Keys| - 1;
  }

  /** The file system: the content stored at each existing path. */
  class FileSystem {
    var Files: map<FilePath, Content>

    constructor (files: map<FilePath, Content>)
      ensures Files == files
    {
      Files := files;
    }

    /** File.Move(src, dst) when it does not throw. */
    method Move(src: FilePath, dst: FilePath)
      requires src in Files && dst !in Files
      modifies this
      ensures Files == MoveEntry(old(Files), src, dst)
    {
      Files := (Files - {src})[dst := Files[src]];
    }

    /** TagLib's File.Save: the file at `path` now holds `content`. */
    method Save(path: FilePath, content: Content)
      modifies this
      ensures Files == old(Files)[path := content]
    {
      Files := Files[path := content];
    }
  }

  /** One call of RenameFile: its result, the files afterwards, the new path
      reported through setPath (if any) and the statuses emitted. */
  datatype RenameResult = RenameResult(Ok: bool, Files: map<FilePath, Content>, Moved: Option<FilePath>, Statuses: seq<Status>)

  /** The destination of a rename: the source's directory, the escaped new
      name and the source's own extension. The stem holds exactly the new
      name's valid characters, and a new name without invalid characters is
      taken as it is. */
  function RenameTarget(path: FilePath, newName: string, invalid: set<char>): (target: FilePath)
    ensures target.Dir == path.Dir && target.Ext == path.Ext
    ensures forall i :: 0 <= i < |target.Stem| ==> target.Stem[i] !in invalid
    ensures forall c :: c in target.Stem <==> c in newName && c !in invalid
    ensures (forall i :: 0 <= i < |newName| ==> newName[i] !in invalid) ==> target.Stem == newName
  {
    var e := Escaping(newName, path.Stem, invalid);
    assert (forall i :: 0 <= i < |newName| ==> newName[i] !in invalid) ==> e.Name == newName by {
      if forall i :: 0 <= i < |newName| ==> newName[i] !in invalid {
        EscapingCleanName(newName, path.Stem, invalid);
      }
    }
    FilePath(path.Dir, e.Name, path.Ext)
  }

  function RenameSpec(files: map<FilePath, Content>, path: FilePath, newName: string, invalid: set<char>, moveFails: bool): RenameResult {
    var e := Escaping(newName, path.Stem, invalid);
    var warning := if e.Warned then [Status(Warning, InvalidCharsRemoved)] else [];
    var target := RenameTarget(path, newName, invalid);
    if path == target then
      RenameResult(true, files, None, warning)
    else if target in files then
      RenameResult(false, files, None, warning + [Status(Error, RenameCollision)])
    else if path !in files || moveFails then
      RenameResult(false, files, None, warning + [Status(Error, RenameFailed)])
    else
      RenameResult(true, MoveEntry(files, path, target), Some(target), warning + [Status(Information, Renamed)])
  }

  /** A rename succeeds exactly when the name is unchanged, or the target is
      free and the move goes through; it moves the file (and reports the new
      path) exactly when it succeeds with a changed name. */
  lemma RenameOutcome(files: map<FilePath, Content>, path: FilePath, newName: string, invalid: set<char>, moveFails: bool)
    ensures var r := RenameSpec(files, path, newName, invalid, moveFails);
      var target := RenameTarget(path, newName, invalid);
      && (r.Ok <==> target == path || (target !in files && path in files && !moveFails))
      && (r.Moved.Some? <==> r.Ok && target != path)
      && (r.Moved.Some? ==> r.Moved.value == target)
      && (!r.Ok ==> r.Files == files && |r.Statuses| > 0 && Last(r.Statuses).Kind == Error)
  {
  }

  /** When the escaped name equals the current one nothing moves and the
      call succeeds. */
  lemma RenameUnchangedIsNoop(files: map<FilePath, Content>, path: FilePath, newName: string, invalid: set<char>, moveFails: bool)
    requires RenameTarget(path, newName, invalid) == path
    ensures var r := RenameSpec(files, path, newName, invalid, moveFails);
      r.Ok && r.Files == files && r.Moved.None? && Status(Error, RenameCollision) !in r.Statuses
  {
  }

  /** An existing file at the target is never replaced: the rename fails
      with the collision error and nothing changes. */
  lemma RenameCollisionFails(files: map<FilePath, Content>, path: FilePath, newName: string, invalid: set<char>, moveFails: bool)
    requires RenameTarget(path, newName, invalid) != path
    requires RenameTarget(path, newName, invalid) in files
    ensures var r := RenameSpec(files, path, newName, invalid, moveFails);
      !r.Ok && r.Files == files && r.Moved.None? && Last(r.Statuses) == Status(Error, RenameCollision)
  {
  }

  /** A rename never overwrites: every file other than the renamed one keeps
      its path and content, the renamed content appears only at a path that
      was free, and the number of files stays the same. */
  lemma RenameNeverOverwrites(files: map<FilePath, Content>, path: FilePath, newName: string, invalid: set<char>, moveFails: bool)
    ensures var r := RenameSpec(files, path, newName, invalid, moveFails);
      && (forall p :: p in files && (r.Moved.None? || p != path) ==> p in r.Files && r.Files[p] == files[p])
      && (r.Moved.Some? ==> r.Moved.value !in files && path !in r.Files && r.Files[r.Moved.value] == files[path])
      && |r.Files| == |files|
  {
    var r := RenameSpec(files, path, newName, invalid, moveFails);
    if r.Moved.Some? {
      MoveEntryKeepsCount(files, path, r.Moved.value);
    }
  }

  /** The warning about removed characters is the first status of a rename
      exactly when the escape raised it. */
  lemma RenameWarning(files: map<FilePath, Content>, path: FilePath, newName: string, invalid: set<char>, moveFails: bool)
    ensures var r := RenameSpec(files, path, newName, invalid, moveFails);
      && ((Status(Warning, InvalidCharsRemoved) in r.Statuses) <==>
            RemoveChars(newName, invalid) != path.Stem && exists i :: 0 <= i < |newName| && newName[i] in invalid)
      && (Status(Warning, InvalidCharsRemoved) in r.Statuses ==> r.Statuses[0] == Status(Warning, InvalidCharsRemoved))
  {
  }

  function Last<T>(s: seq<T>): T
    requires |s| > 0
  {
    s[|s| - 1]
  }

  /** The cover-art part of the tag stage, up to the picture assignment. */
  datatype CoverResult = CoverResult(
    Threw: bool,
    Ok: bool,
    Pictures: Option<seq<Picture>>,
    Cache: map<string, seq<byte>>,
    Downloads: seq<string>,
    Statuses: seq<Status>)

  predicate WantsCover(m: MetadataRecord, config: Config) {
    !IsNullOrEmpty(m.CoverFilename) && config.AddCoverArt
  }

  function CoverStep(m: MetadataRecord, config: Config, cache: map<string, seq<byte>>, fetch: string -> HttpResponse,
                     nullPictureThrows: bool): CoverResult
  {
    if WantsCover(m, config) then
      if m.CoverURL.None? then
        CoverResult(true, true, None, cache, [], [])
      else
        var url := m.CoverURL.value;
        if url in cache then
          CoverResult(false, true, Some([Picture(cache[url], CoverPictureName)]), cache, [], [])
        else
          match fetch(url)
          case Downloaded(body) =>
            CoverResult(false, true, Some([Picture(body, CoverPictureName)]), cache[url := body], [url], [])
          case ErrorStatus(_) =>
            CoverResult(nullPictureThrows, false, if nullPictureThrows then None else Some([Picture([], CoverPictureName)]),
                        cache, [url], [Status(Error, CoverDownloadFailed)])
          case TransportFailure =>
            CoverResult(true, true, None, cache, [url], [])
    else if config.AddCoverArt then
      CoverResult(false, false, None, cache, [], [])
    else
      CoverResult(false, true, None, cache, [], [])
  }

  /** The tag stage: its result, the files, the cache, the URLs requested and
      the statuses emitted. */
  datatype TagResult = TagResult(
    Ok: bool,
    Files: map<FilePath, Content>,
    Cache: map<string, seq<byte>>,
    Downloads: seq<string>,
    Statuses: seq<Status>)

  /** TagLib opens the file: it exists, holds media and opening does not fail. */
  predicate Opens(files: map<FilePath, Content>, path: FilePath, faults: Faults) {
    !faults.OpenFails && path in files && files[path].Media?
  }

  function TagStage(files: map<FilePath, Content>, cache: map<string, seq<byte>>, path: FilePath,
                    m: MetadataRecord, config: Config, fetch: string -> HttpResponse, faults: Faults): TagResult
  {
    var failed := Status(Error, TagWriteFailed);
    if !Opens(files, path, faults) then
      TagResult(false, files, cache, [], [failed])
    else
      var content := files[path];
      var tag := WriteTags(content.Tag, m, config.ExtendedTagging, content.MimeType);
      var c := CoverStep(m, config, cache, fetch, faults.NullPictureThrows);
      if c.Threw || faults.SaveFails then
        TagResult(false, files, c.Cache, c.Downloads, c.Statuses + [failed])
      else
        var saved := if c.Pictures.Some? then tag.(Pictures := c.Pictures.value) else tag;
        TagResult(c.Ok, files[path := Media(content.MimeType, saved)], c.Cache, c.Downloads,
                  c.Statuses + (if c.Ok then [Status(Information, Tagged)] else []))
  }

  /** The cover step keeps every cache entry, adds at most the URL it
      downloaded, and requests at most one URL. */
  lemma CoverStepCache(m: MetadataRecord, config: Config, cache: map<string, seq<byte>>, fetch: string -> HttpResponse,
                       nullPictureThrows: bool)
    ensures var c := CoverStep(m, config, cache, fetch, nullPictureThrows);
      && (forall u :: u in cache ==> u in c.Cache && c.Cache[u] == cache[u])
      && (forall u :: u in c.Cache && u !in cache ==> u in c.Downloads)
      && |c.Downloads| <= 1
  {
  }

  /** The tag stage touches no file but its own. */
  lemma TagStageFrame(files: map<FilePath, Content>, cache: map<string, seq<byte>>, path: FilePath,
                      m: MetadataRecord, config: Config, fetch: string -> HttpResponse, faults: Faults)
    ensures var t := TagStage(files, cache, path, m, config, fetch, faults);
      && (forall p :: p != path ==> (p in t.Files <==> p in files))
      && (forall p :: p != path && p in files ==> t.Files[p] == files[p])
      && (path in t.Files <==> path in files)
  {
  }

  /** The tag stage keeps every cache entry, caches only what it downloaded,
      requests at most one URL, and reports success exactly when it emits
      the success message. */
  lemma TagStageCache(files: map<FilePath, Content>, cache: map<string, seq<byte>>, path: FilePath,
                      m: MetadataRecord, config: Config, fetch: string -> HttpResponse, faults: Faults)
    ensures var t := TagStage(files, cache, path, m, config, fetch, faults);
      && (forall u :: u in cache ==> u in t.Cache && t.Cache[u] == cache[u])
      && (forall u :: u in t.Cache && u !in cache ==> u in t.Downloads)
      && |t.Downloads| <= 1
      && (t.Ok <==> Status(Information, Tagged) in t.Statuses)
  {
    CoverStepCache(m, config, cache, fetch, faults.NullPictureThrows);
  }

  /** A successful tag stage saved the metadata's tags into the file. */
  lemma TagStageSaves(files: map<FilePath, Content>, cache: map<string, seq<byte>>, path: FilePath,
                      m: MetadataRecord, config: Config, fetch: string -> HttpResponse, faults: Faults)
    ensures var t := TagStage(files, cache, path, m, config, fetch, faults);
      t.Ok ==> (path in files && files[path].Media? && t.Files[path].Media?
        && t.Files[path].MimeType == files[path].MimeType
        && t.Files[path].Tag.Title == m.Title && t.Files[path].Tag.Description == m.Overview
        && (WantsCover(m, config) ==> |t.Files[path].Tag.Pictures| == 1))
  {
  }

  /** A cached cover URL is not downloaded again, and the cached bytes are
      embedded. */
  lemma CacheHitNoDownload(files: map<FilePath, Content>, cache: map<string, seq<byte>>, path: FilePath,
                           m: MetadataRecord, config: Config, fetch: string -> HttpResponse, faults: Faults)
    requires Opens(files, path, faults) && WantsCover(m, config)
    requires m.CoverURL.Some? && m.CoverURL.value in cache
    ensures var t := TagStage(files, cache, path, m, config, fetch, faults);
      && t.Downloads == [] && t.Cache == cache
      && (!faults.SaveFails ==> t.Ok && t.Files[path].Tag.Pictures == [Picture(cache[m.CoverURL.value], CoverPictureName)])
  {
  }

  /** A downloaded cover is stored in the cache under its URL and embedded. */
  lemma DownloadIsCached(files: map<FilePath, Content>, cache: map<string, seq<byte>>, path: FilePath,
                         m: MetadataRecord, config: Config, fetch: string -> HttpResponse, faults: Faults)
    requires Opens(files, path, faults) && WantsCover(m, config)
    requires m.CoverURL.Some? && m.CoverURL.value !in cache && fetch(m.CoverURL.value).Downloaded?
    ensures var t := TagStage(files, cache, path, m, config, fetch, faults);
      var url := m.CoverURL.value;
      && t.Downloads == [url]
      && t.Cache == cache[url := fetch(url).Body]
      && (!faults.SaveFails ==> t.Ok && t.Files[path].Tag.Pictures == [Picture(fetch(url).Body, CoverPictureName)])
  {
  }

  /** Once a stage has downloaded a cover, a later stage asking for the same
      URL, with any file and any network, downloads nothing. */
  lemma RepeatRequestIsHit(files: map<FilePath, Content>, cache: map<string, seq<byte>>, path: FilePath,
                           m: MetadataRecord, config: Config, fetch: string -> HttpResponse, faults: Faults,
                           files2: map<FilePath, Content>, path2: FilePath, m2: MetadataRecord,
                           fetch2: string -> HttpResponse, faults2: Faults)
    requires Opens(files, path, faults) && WantsCover(m, config)
    requires m.CoverURL.Some? && fetch(m.CoverURL.value).Downloaded?
    requires m2.CoverURL == m.CoverURL
    ensures var t := TagStage(files, cache, path, m, config, fetch, faults);
      TagStage(files2, t.Cache, path2, m2, config, fetch2, faults2).Downloads == []
  {
  }

  /** A download answered with an error status is not cached, emits the
      download error and fails the stage. When the picture built from the
      missing bytes throws, the tags are not saved and the tag-write error
      follows; otherwise the tags are saved with an empty picture. */
  lemma FailedDownloadNotCached(files: map<FilePath, Content>, cache: map<string, seq<byte>>, path: FilePath,
                                m: MetadataRecord, config: Config, fetch: string -> HttpResponse, faults: Faults)
    requires Opens(files, path, faults) && WantsCover(m, config)
    requires m.CoverURL.Some? && m.CoverURL.value !in cache && fetch(m.CoverURL.value).ErrorStatus?
    ensures var t := TagStage(files, cache, path, m, config, fetch, faults);
      && !t.Ok && t.Cache == cache
      && t.Downloads == [m.CoverURL.value]
      && (faults.NullPictureThrows || faults.SaveFails ==>
            t.Files == files && t.Statuses == [Status(Error, CoverDownloadFailed), Status(Error, TagWriteFailed)])
      && (!faults.NullPictureThrows && !faults.SaveFails ==>
            && t.Statuses == [Status(Error, CoverDownloadFailed)]
            && t.Files == files[path := Media(files[path].MimeType,
                 WriteTags(files[path].Tag, m, config.ExtendedTagging, files[path].MimeType).(Pictures := [Picture([], CoverPictureName)]))])
  {
  }

  /** With cover art on but no cover file name the stage fails, yet the
      tags are still written and saved, without a picture and without any
      message. */
  lemma MissingCoverStillSaves(files: map<FilePath, Content>, cache: map<string, seq<byte>>, path: FilePath,
                               m: MetadataRecord, config: Config, fetch: string -> HttpResponse, faults: Faults)
    requires Opens(files, path, faults) && !faults.SaveFails
    requires config.AddCoverArt && IsNullOrEmpty(m.CoverFilename)
    ensures var t := TagStage(files, cache, path, m, config, fetch, faults);
      && !t.Ok && t.Statuses == [] && t.Downloads == [] && t.Cache == cache
      && t.Files == files[path := Media(files[path].MimeType, WriteTags(files[path].Tag, m, config.ExtendedTagging, files[path].MimeType))]
  {
  }

  /** The two renames of WriteAsync: the file, then its subtitle if any. */
  datatype RenameStageResult = RenameStageResult(Ok: bool, Files: map<FilePath, Content>, Statuses: seq<Status>, PathUpdates: seq<FilePath>)

  function RenameStage(files: map<FilePath, Content>, file: TaggingFile, newName: string, invalid: set<char>, faults: Faults): RenameStageResult {
    var main := RenameSpec(files, file.Path, newName, invalid, file.Path in faults.MoveFails);
    if file.SubtitlePath.None? then
      RenameStageResult(main.Ok, main.Files, main.Statuses, OptionToSeq(main.Moved))
    else
      var subtitle := file.SubtitlePath.value;
      var sub := RenameSpec(main.Files, subtitle, newName, invalid, subtitle in faults.MoveFails);
      RenameStageResult(main.Ok && sub.Ok, sub.Files, main.Statuses + sub.Statuses,
                        OptionToSeq(main.Moved) + OptionToSeq(sub.Moved))
  }

  /** Two RenameFile calls in a row, observed as (result, files, statuses,
      new paths) after each, make up the rename stage of a file with a
      subtitle. */
  lemma RenameStageSteps(files: map<FilePath, Content>, file: TaggingFile, newName: string, invalid: set<char>, faults: Faults,
                         statuses: seq<Status>, updates: seq<FilePath>,
                         first: (bool, map<FilePath, Content>, seq<Status>, seq<FilePath>),
                         second: (bool, map<FilePath, Content>, seq<Status>, seq<FilePath>))
    requires file.SubtitlePath.Some?
    requires var main := RenameSpec(files, file.Path, newName, invalid, file.Path in faults.MoveFails);
      first == (main.Ok, main.Files, statuses + main.Statuses, updates + OptionToSeq(main.Moved))
    requires var subtitle := file.SubtitlePath.value;
      var sub := RenameSpec(first.1, subtitle, newName, invalid, subtitle in faults.MoveFails);
      second == (sub.Ok, sub.Files, first.2 + sub.Statuses, first.3 + OptionToSeq(sub.Moved))
    ensures var r := RenameStage(files, file, newName, invalid, faults);
      && (first.0 && second.0) == r.Ok
      && second.1 == r.Files
      && second.2 == statuses + r.Statuses
      && second.3 == updates + r.PathUpdates
  {
    var main := RenameSpec(files, file.Path, newName, invalid, file.Path in faults.MoveFails);
    var subtitle := file.SubtitlePath.value;
    var sub := RenameSpec(main.Files, subtitle, newName, invalid, subtitle in faults.MoveFails);
    assert RenameStage(files, file, newName, invalid, faults) ==
      RenameStageResult(main.Ok && sub.Ok, sub.Files, main.Statuses + sub.Statuses,
                        OptionToSeq(main.Moved) + OptionToSeq(sub.Moved));
    AppendAssoc(statuses, main.Statuses, sub.Statuses);
    AppendAssoc(updates, OptionToSeq(main.Moved), OptionToSeq(sub.Moved));
  }

  /** Everything one WriteAsync call does. */
  datatype WriteResult = WriteResult(
    Ok: bool,
    Files: map<FilePath, Content>,
    Cache: map<string, seq<byte>>,
    InvalidChars: Option<set<char>>,
    Downloads: seq<string>,
    Statuses: seq<Status>,
    PathUpdates: seq<FilePath>)

  function TagPart(files: map<FilePath, Content>, cache: map<string, seq<byte>>, file: TaggingFile,
                   m: MetadataRecord, config: Config, fetch: string -> HttpResponse, faults: Faults): TagResult
  {
    if config.TagFiles && file.Taggable then TagStage(files, cache, file.Path, m, config, fetch, faults)
    else TagResult(true, files, cache, [], [])
  }

  /** The rename stage of a WriteAsync call, run on the files the tag part
      left; nothing happens when renaming is off. */
  function RenamePart(files: map<FilePath, Content>, invalidChars: Option<set<char>>, platform: set<char>,
                      file: TaggingFile, config: Config, faults: Faults, newName: string): RenameStageResult
  {
    if config.RenameFiles then
      RenameStage(files, file, newName, ResolveInvalidChars(invalidChars, platform, config.WindowsSafe), faults)
    else
      RenameStageResult(true, files, [], [])
  }

  /** The invalid-character set after a WriteAsync call. */
  function InvalidCharsAfter(invalidChars: Option<set<char>>, platform: set<char>, config: Config): Option<set<char>> {
    if config.RenameFiles then Some(ResolveInvalidChars(invalidChars, platform, config.WindowsSafe)) else invalidChars
  }

  /** A WriteAsync call after its tag part `t`. */
  function WriteSpec(t: TagResult, invalidChars: Option<set<char>>, platform: set<char>, file: TaggingFile,
                     config: Config, faults: Faults, newName: string): WriteResult
  {
    var r := RenamePart(t.Files, invalidChars, platform, file, config, faults, newName);
    WriteResult(t.Ok && r.Ok, r.Files, t.Cache, InvalidCharsAfter(invalidChars, platform, config),
                t.Downloads, t.Statuses + r.Statuses, r.PathUpdates)
  }

  /** The tag part, observed as (result, files, cache, downloads, statuses)
      after it, followed by the rename part, observed as (result, files,
      statuses, new paths), make up one WriteAsync call. */
  lemma WriteSpecSteps(t: TagResult, invalidChars: Option<set<char>>, platform: set<char>, file: TaggingFile,
                       config: Config, faults: Faults, newName: string,
                       downloads: seq<string>, statuses: seq<Status>, updates: seq<FilePath>,
                       tagged: (bool, map<FilePath, Content>, map<string, seq<byte>>, seq<string>, seq<Status>),
                       invalidAfter: Option<set<char>>,
                       renamed: (bool, map<FilePath, Content>, seq<Status>, seq<FilePath>))
    requires tagged == (t.Ok, t.Files, t.Cache, downloads + t.Downloads, statuses + t.Statuses)
    requires invalidAfter == InvalidCharsAfter(invalidChars, platform, config)
    requires var r := RenamePart(tagged.1, invalidChars, platform, file, config, faults, newName);
      renamed == (r.Ok, r.Files, tagged.4 + r.Statuses, updates + r.PathUpdates)
    ensures var w := WriteSpec(t, invalidChars, platform, file, config, faults, newName);
      && (tagged.0 && renamed.0) == w.Ok
      && renamed.1 == w.Files
      && tagged.2 == w.Cache
      && invalidAfter == w.InvalidChars
      && tagged.3 == downloads + w.Downloads
      && renamed.2 == statuses + w.Statuses
      && renamed.3 == updates + w.PathUpdates
  {
    var r := RenamePart(t.Files, invalidChars, platform, file, config, faults, newName);
    AppendAssoc(statuses, t.Statuses, r.Statuses);
  }

  /** The result is the conjunction of the tag part, the rename of the file
      and the rename of the subtitle when there is one. */
  lemma WriteResultIsConjunction(t: TagResult, invalidChars: Option<set<char>>, platform: set<char>, file: TaggingFile,
                                 config: Config, faults: Faults, newName: string)
    requires config.RenameFiles
    ensures var w := WriteSpec(t, invalidChars, platform, file, config, faults, newName);
      var invalid := ResolveInvalidChars(invalidChars, platform, config.WindowsSafe);
      var main := RenameSpec(t.Files, file.Path, newName, invalid, file.Path in faults.MoveFails);
      w.Ok <==> (t.Ok && main.Ok &&
        (file.SubtitlePath.Some? ==> RenameSpec(main.Files, file.SubtitlePath.value, newName, invalid, file.SubtitlePath.value in faults.MoveFails).Ok))
  {
  }

  /** The subtitle is renamed even when tagging and the main rename failed:
      the failures are combined only after both renames ran. */
  lemma SubtitleRenamedRegardless(t: TagResult, invalidChars: Option<set<char>>, platform: set<char>, file: TaggingFile,
                                  config: Config, faults: Faults, newName: string)
    requires config.RenameFiles && file.SubtitlePath.Some?
    ensures var w := WriteSpec(t, invalidChars, platform, file, config, faults, newName);
      var invalid := ResolveInvalidChars(invalidChars, platform, config.WindowsSafe);
      var main := RenameSpec(t.Files, file.Path, newName, invalid, file.Path in faults.MoveFails);
      var sub := RenameSpec(main.Files, file.SubtitlePath.value, newName, invalid, file.SubtitlePath.value in faults.MoveFails);
      sub.Moved.Some? ==> |w.PathUpdates| > 0 && Last(w.PathUpdates) == sub.Moved.value
  {
  }

  /** Without tagging enabled for the file, the cache, the downloads and the
      files before renaming are untouched, and the result is the rename
      stage's alone. */
  lemma UntaggedWriteIsRenameOnly(cache: map<string, seq<byte>>, invalidChars: Option<set<char>>, platform: set<char>,
                                  files: map<FilePath, Content>, file: TaggingFile, m: MetadataRecord, config: Config,
                                  fetch: string -> HttpResponse, faults: Faults, newName: string)
    requires !(config.TagFiles && file.Taggable)
    ensures var w := WriteSpec(TagPart(files, cache, file, m, config, fetch, faults), invalidChars, platform, file, config, faults, newName);
      var invalid := ResolveInvalidChars(invalidChars, platform, config.WindowsSafe);
      && w.Cache == cache && w.Downloads == []
      && (config.RenameFiles ==> w.Ok == RenameStage(files, file, newName, invalid, faults).Ok)
      && (!config.RenameFiles ==> w.Ok && w.Files == files && w.Statuses == [])
  {
  }

  /** The invalid-character set is built by the first call that renames and
      kept for good: later calls use it even if Windows-safe mode changed. */
  lemma InvalidCharsBuiltOnce(t: TagResult, invalidChars: Option<set<char>>, platform: set<char>, file: TaggingFile,
                              config: Config, faults: Faults, newName: string)
    ensures var w := WriteSpec(t, invalidChars, platform, file, config, faults, newName);
      && (invalidChars.Some? ==> w.InvalidChars == invalidChars)
      && (invalidChars.None? && config.RenameFiles ==> w.InvalidChars == Some(InvalidCharSet(platform, config.WindowsSafe)))
      && (!config.RenameFiles ==> w.InvalidChars == invalidChars)
  {
  }

  /** The writer. The cover cache and the invalid-character set live for as
      long as the writer; `Downloads` records every URL requested over HTTP. */
  class FileWriter {
    const PlatformInvalidChars: set<char>
    var Cache: map<string, seq<byte>>
    var InvalidFilenameChars: Option<set<char>>
    var Downloads: seq<string>

    /** The platform's invalid file-name characters are never empty (every
        platform forbids at least '/' and the null character); with an empty
        separator array Split would break at white space instead, which
        RemoveChars does not model. */
    constructor (platformInvalidChars: set<char>)
      requires platformInvalidChars != {}
      ensures PlatformInvalidChars == platformInvalidChars
      ensures Cache == map[] && InvalidFilenameChars.None? && Downloads == []
    {
      PlatformInvalidChars := platformInvalidChars;
      Cache := map[];
      InvalidFilenameChars := None;
      Downloads := [];
    }

    /** Tags one file, returning whether tagging fully succeeded. */
    method WriteAsync(taggingFile: TaggingFile, metadata: FileMetadata, fs: FileSystem, host: Host, config: Config,
                      fetch: string -> HttpResponse, faults: Faults, getFileName: (MetadataRecord, Config) -> string)
      returns (fileSuccess: bool)
      modifies this, fs, host
      ensures var t := TagPart(old(fs.Files), old(Cache), taggingFile, old(metadata.Snapshot()), config, fetch, faults);
        var w := WriteSpec(t, old(InvalidFilenameChars), PlatformInvalidChars, taggingFile, config, faults,
                           getFileName(old(metadata.Snapshot()), config));
        && fileSuccess == w.Ok
        && fs.Files == w.Files
        && Cache == w.Cache
        && InvalidFilenameChars == w.InvalidChars
        && Downloads == old(Downloads) + w.Downloads
        && host.Statuses == old(host.Statuses) + w.Statuses
        && host.PathUpdates == old(host.PathUpdates) + w.PathUpdates
        && host.Prompts == old(host.Prompts)
    {
      ghost var cache, invalidChars, files := Cache, InvalidFilenameChars, fs.Files;
      ghost var downloads, statuses, updates := Downloads, host.Statuses, host.PathUpdates;
      fileSuccess := true;

      if config.TagFiles && taggingFile.Taggable {
        fileSuccess := TagAndSave(taggingFile.Path, metadata, fs, host, config, fetch, faults);
      }
      ghost var tagged := (fileSuccess, fs.Files, Cache, Downloads, host.Statuses);
      ghost var t := TagPart(files, cache, taggingFile, metadata.Snapshot(), config, fetch, faults);
      assert tagged.0 == t.Ok;
      assert tagged.1 == t.Files;
      assert tagged.2 == t.Cache;
      assert tagged.3 == downloads + t.Downloads;
      assert tagged.4 == statuses + t.Statuses;
      ghost var renamedOk := true;

      if config.RenameFiles {
        var invalid := BuildInvalidChars(config.WindowsSafe);
        var renamed := RenameWithSubtitle(fs, host, taggingFile, getFileName(metadata.Snapshot(), config),
                                          invalid, faults);
        fileSuccess := fileSuccess && renamed;
        renamedOk := renamed;
      } else {
        assert host.Statuses + [] == host.Statuses && host.PathUpdates == updates + [];
      }
      WriteSpecSteps(TagPart(files, cache, taggingFile, metadata.Snapshot(), config, fetch, faults), invalidChars,
                     PlatformInvalidChars, taggingFile, config, faults, getFileName(metadata.Snapshot(), config),
                     downloads, statuses, updates,
                     tagged, InvalidFilenameChars, (renamedOk, fs.Files, host.Statuses, host.PathUpdates));
    }

    /** The invalid-character set, built on first use and kept afterwards. */
    method BuildInvalidChars(windowsSafe: bool) returns (invalid: set<char>)
      modifies this`InvalidFilenameChars
      ensures invalid == ResolveInvalidChars(old(InvalidFilenameChars), PlatformInvalidChars, windowsSafe)
      ensures InvalidFilenameChars == Some(invalid)
    {
      if InvalidFilenameChars.None? {
        var chars := PlatformInvalidChars;
        if windowsSafe {
          chars := chars + NtfsInvalidChars;
        }
        InvalidFilenameChars := Some(chars);
      }
      invalid := InvalidFilenameChars.value;
    }

    /** The rename part of WriteAsync: the file, then its subtitle if it has
        one, both attempted whatever the first one's outcome. */
    static method RenameWithSubtitle(fs: FileSystem, host: Host, taggingFile: TaggingFile, newName: string,
                                     invalid: set<char>, faults: Faults)
      returns (fileSuccess: bool)
      modifies fs, host`Statuses, host`PathUpdates
      ensures var r := RenameStage(old(fs.Files), taggingFile, newName, invalid, faults);
        && fileSuccess == r.Ok
        && fs.Files == r.Files
        && host.Statuses == old(host.Statuses) + r.Statuses
        && host.PathUpdates == old(host.PathUpdates) + r.PathUpdates
    {
      ghost var files, statuses, updates := fs.Files, host.Statuses, host.PathUpdates;
      fileSuccess := RenameFile(fs, host, taggingFile.Path, newName, invalid, taggingFile.Path in faults.MoveFails);

      if taggingFile.SubtitlePath.Some? {
        var subtitle := taggingFile.SubtitlePath.value;
        ghost var afterMain := (fileSuccess, fs.Files, host.Statuses, host.PathUpdates);
        var renamed := RenameFile(fs, host, subtitle, newName, invalid, subtitle in faults.MoveFails);
        RenameStageSteps(files, taggingFile, newName, invalid, faults, statuses, updates,
                         afterMain, (renamed, fs.Files, host.Statuses, host.PathUpdates));
        fileSuccess := fileSuccess && renamed;
      }
    }

    /** The try block of the tag stage and its catch. */
    method TagAndSave(path: FilePath, metadata: FileMetadata, fs: FileSystem, host: Host, config: Config,
                      fetch: string -> HttpResponse, faults: Faults)
      returns (fileSuccess: bool)
      modifies this`Cache, this`Downloads, fs, host`Statuses
      ensures var t := TagStage(old(fs.Files), old(Cache), path, metadata.Snapshot(), config, fetch, faults);
        && fileSuccess == t.Ok
        && fs.Files == t.Files
        && Cache == t.Cache
        && Downloads == old(Downloads) + t.Downloads
        && host.Statuses == old(host.Statuses) + t.Statuses
    {
      fileSuccess := true;
      var threw := false;
      if faults.OpenFails || path !in fs.Files || fs.Files[path].Unsupported? {
        threw := true;
      } else {
        var content := fs.Files[path];
        var file := new TagFile(content.MimeType, content.Tag);
        metadata.WriteToFile(file, config);
        var coverThrew, coverOk, pictures := CoverArt(metadata, host, config, fetch, faults.NullPictureThrows);
        if pictures.Some? {
          file.SetPictures(pictures.value);
        }
        if coverThrew || faults.SaveFails {
          threw := true;
        } else {
          fs.Save(path, Media(file.MimeType, file.Tag));
          fileSuccess := coverOk;
          if fileSuccess {
            host.SetStatus(Status(Information, Tagged));
          }
        }
      }
      if threw {
        host.SetStatus(Status(Error, TagWriteFailed));
        fileSuccess := false;
      }
    }

    /** The cover-art region of the tag stage: look the cover up in the
        cache, download it when missing, and build the picture list. A null
        cover URL and a transport failure throw; a picture built from
        missing bytes throws when `nullPictureThrows` says so and is empty
        otherwise. */
    method CoverArt(metadata: FileMetadata, host: Host, config: Config, fetch: string -> HttpResponse,
                    nullPictureThrows: bool)
      returns (threw: bool, fileSuccess: bool, pictures: Option<seq<Picture>>)
      modifies this`Cache, this`Downloads, host`Statuses
      ensures var c := CoverStep(metadata.Snapshot(), config, old(Cache), fetch, nullPictureThrows);
        && threw == c.Threw && fileSuccess == c.Ok && pictures == c.Pictures
        && Cache == c.Cache && Downloads == old(Downloads) + c.Downloads
        && host.Statuses == old(host.Statuses) + c.Statuses
    {
      threw, fileSuccess, pictures := false, true, None;
      if !IsNullOrEmpty(metadata.CoverFilename) && config.AddCoverArt {
        if metadata.CoverURL.None? {
          // the cache lookup rejects a null key
          return true, true, None;
        }
        var url := metadata.CoverURL.value;
        var imgBytes: Option<seq<byte>> := None;
        if url in Cache {
          imgBytes := Some(Cache[url]);
        } else {
          Downloads := Downloads + [url];
          var response := fetch(url);
          if response.Downloaded? {
            imgBytes := Some(response.Body);
            Cache := Cache[url := response.Body];
          } else if response.ErrorStatus? {
            host.SetStatus(Status(Error, CoverDownloadFailed));
            fileSuccess := false;
          } else {
            return true, true, None;
          }
        }
        if imgBytes.None? && nullPictureThrows {
          // the picture constructor rejects the missing bytes
          return true, fileSuccess, None;
        }
        pictures := Some([Picture(if imgBytes.Some? then imgBytes.value else [], CoverPictureName)]);
      } else if IsNullOrEmpty(metadata.CoverFilename) && config.AddCoverArt {
        fileSuccess := false;
      }
    }

    /** EscapeFilename: the escaped name, with the warning sent to the host. */
    static method EscapeFilename(host: Host, filename: string, oldFilename: string, invalid: set<char>)
      returns (result: string)
      modifies host`Statuses
      ensures result == Escaping(filename, oldFilename, invalid).Name
      ensures host.Statuses == old(host.Statuses) +
        (if Escaping(filename, oldFilename, invalid).Warned then [Status(Warning, InvalidCharsRemoved)] else [])
    {
      result := RemoveChars(filename, invalid);
      if result != oldFilename && |result| != |filename| {
        host.SetStatus(Status(Warning, InvalidCharsRemoved));
      }
    }

    /** RenameFile: moves `path` to the escaped new name unless that name is
        the current one or is taken. */
    static method RenameFile(fs: FileSystem, host: Host, path: FilePath, newName: string, invalid: set<char>, moveFails: bool)
      returns (fileSuccess: bool)
      modifies fs, host`Statuses, host`PathUpdates
      ensures var r := RenameSpec(old(fs.Files), path, newName, invalid, moveFails);
        && fileSuccess == r.Ok
        && fs.Files == r.Files
        && host.Statuses == old(host.Statuses) + r.Statuses
        && host.PathUpdates == old(host.PathUpdates) + OptionToSeq(r.Moved)
    {
      fileSuccess := true;
      var escaped := EscapeFilename(host, newName, path.Stem, invalid);
      var newPath := FilePath(path.Dir, escaped, path.Ext);

      if path != newPath {
        var threw := false;
        if newPath in fs.Files {
          host.SetStatus(Status(Error, RenameCollision));
          fileSuccess := false;
        } else if path !in fs.Files || moveFails {
          // File.Move throws
          threw := true;
        } else {
          fs.Move(path, newPath);
          host.SetPath(newPath);
          host.SetStatus(Status(Information, Renamed));
        }
        if threw {
          host.SetStatus(Status(Error, RenameFailed));
          fileSuccess := false;
        }
      }
    }
  }
}
