/** FileMetadata: what a processor found out about one file, the tag record
    it is written into (TagLib's Tag, reduced to the fields that matter here),
    and the opened media file that holds that tag. */
module Metadata {
  import opened Common

  newtype byte = b: int | 0 <= b < 256

  /** An embedded picture: its bytes and the file name it is stored under. */
  datatype Picture = Picture(Data: seq<byte>, Filename: string)

  datatype Date = Date(Year: int, Month: int, Day: int)

  /** The tag of a media file. Null strings and null arrays are None. */
  datatype Tag = Tag(
    Title: Option<string>,
    Description: Option<string>,
    Genres: seq<string>,
    Conductor: Option<string>,
    Performers: Option<seq<string>>,
    PerformersRole: Option<seq<string>>,
    Pictures: seq<Picture>,
    Album: Option<string>,
    Comment: Option<string>,
    Year: nat,
    Track: nat)

  /** The tag fields that writing metadata never touches. */
  function Untouched(t: Tag): (seq<Picture>, Option<string>, Option<string>, nat, nat) {
    (t.Pictures, t.Album, t.Comment, t.Year, t.Track)
  }

  /** The MIME type for which the extended fields are written. */
  const MatroskaMime: string := "video/x-matroska"

  /** The fields of a FileMetadata object at one moment. `Date` is the
      release date that the movie subclass adds. */
  datatype MetadataRecord = MetadataRecord(
    Id: int,
    Title: Option<string>,
    Overview: Option<string>,
    CoverURL: Option<string>,
    CoverFilename: Option<string>,
    Success: bool,
    Complete: bool,
    Director: Option<string>,
    Actors: Option<seq<string>>,
    Characters: Option<seq<string>>,
    Genres: Option<seq<string>>,
    Date: Option<Date>)

  /** A genre list that is non-null and has at least one element. */
  predicate HasGenres(g: Option<seq<string>>) {
    g.Some? && |g.value| > 0
  }

  /** Whether the extended fields (conductor, performers, roles) are written. */
  predicate WritesExtended(extendedTagging: bool, mimeType: string) {
    extendedTagging && mimeType == MatroskaMime
  }

  /** The tag after WriteToFile: title and description always come from the
      metadata, genres only when there are some, and the extended fields only
      for Matroska files with extended tagging on. Nothing else changes. */
  function WriteTags(t: Tag, m: MetadataRecord, extendedTagging: bool, mimeType: string): (r: Tag)
    ensures r.Title == m.Title && r.Description == m.Overview
    ensures HasGenres(m.Genres) ==> r.Genres == m.Genres.value
    ensures !HasGenres(m.Genres) ==> r.Genres == t.Genres
    ensures WritesExtended(extendedTagging, mimeType) ==>
      r.Conductor == m.Director && r.Performers == m.Actors && r.PerformersRole == m.Characters
    ensures !WritesExtended(extendedTagging, mimeType) ==>
      r.Conductor == t.Conductor && r.Performers == t.Performers && r.PerformersRole == t.PerformersRole
    ensures Untouched(r) == Untouched(t)
  {
    var t1 := t.(Title := m.Title, Description := m.Overview);
    var t2 := if HasGenres(m.Genres) then t1.(Genres := m.Genres.value) else t1;
    if WritesExtended(extendedTagging, mimeType) then
      t2.(Conductor := m.Director, Performers := m.Actors, PerformersRole := m.Characters)
    else t2
  }

  /** Writing the same metadata a second time changes nothing more. */
  lemma WriteTagsIdempotent(t: Tag, m: MetadataRecord, extendedTagging: bool, mimeType: string)
    ensures WriteTags(WriteTags(t, m, extendedTagging, mimeType), m, extendedTagging, mimeType)
         == WriteTags(t, m, extendedTagging, mimeType)
  {
  }

  /** The written tag depends on the old tag only through the fields that are
      kept: two tags that agree on those fields end up equal. */
  lemma WriteTagsOverwrites(t1: Tag, t2: Tag, m: MetadataRecord, extendedTagging: bool, mimeType: string)
    requires Untouched(t1) == Untouched(t2)
    requires !HasGenres(m.Genres) ==> t1.Genres == t2.Genres
    requires !WritesExtended(extendedTagging, mimeType) ==>
      t1.Conductor == t2.Conductor && t1.Performers == t2.Performers && t1.PerformersRole == t2.PerformersRole
    ensures WriteTags(t1, m, extendedTagging, mimeType) == WriteTags(t2, m, extendedTagging, mimeType)
  {
  }

  /** An opened media file (TagLib.File): its MIME type and its tag, which
      WriteToFile updates in place. */
  class TagFile {
    const MimeType: string
    var Tag: Tag

    constructor (mimeType: string, tag: Tag)
      ensures MimeType == mimeType && Tag == tag
    {
      MimeType, Tag := mimeType, tag;
    }

    /** file.Tag.Pictures = pictures */
    method SetPictures(pictures: seq<Picture>)
      modifies this
      ensures Tag == old(Tag).(Pictures := pictures)
    {
      Tag := Tag.(Pictures := pictures);
    }
  }

  /** The metadata a processor fills in for one file. */
  class FileMetadata {
    var Id: int
    var Title: Option<string>
    var Overview: Option<string>
    var CoverURL: Option<string>
    var CoverFilename: Option<string>
    var Success: bool
    var Complete: bool
    var Director: Option<string>
    var Actors: Option<seq<string>>
    var Characters: Option<seq<string>>
    var Genres: Option<seq<string>>
    var Date: Option<Date>

    /** A new object claims success and completeness until a processor says
        otherwise; every reference field starts out null. */
    constructor ()
      ensures Success && Complete
      ensures Snapshot() == MetadataRecord(0, None, None, None, None, true, true, None, None, None, None, None)
    {
      Id := 0;
      Title, Overview, CoverURL, CoverFilename := None, None, None, None;
      Success := true;
      Complete := true;
      Director, Actors, Characters, Genres := None, None, None, None;
      Date := None;
    }

    function Snapshot(): MetadataRecord
      reads this
    {
      MetadataRecord(Id, Title, Overview, CoverURL, CoverFilename, Success, Complete,
                     Director, Actors, Characters, Genres, Date)
    }

    /** Writes this metadata into the file's tag, field by field. */
    method WriteToFile(file: TagFile, config: Config)
      modifies file
      ensures file.Tag == WriteTags(old(file.Tag), Snapshot(), config.ExtendedTagging, file.MimeType)
    {
      file.Tag := file.Tag.(Title := Title);
      file.Tag := file.Tag.(Description := Overview);

      if Genres.Some? && |Genres.value| > 0 {
        file.Tag := file.Tag.(Genres := Genres.value);
      }

      if config.ExtendedTagging && file.MimeType == MatroskaMime {
        file.Tag := file.Tag.(Conductor := Director);
        file.Tag := file.Tag.(Performers := Actors);
        file.Tag := file.Tag.(PerformersRole := Characters);
      }
    }
  }
}
