/** Vocabulary shared by the AutoTag core: optional values, status messages,
    configuration, split file paths, string helpers with the semantics of the
    .NET calls the core makes, and the host callbacks (setStatus, setPath,
    selectResult) as a class that records every call. */
module Common {

  datatype Option<+T> = None | Some(value: T)

  function OptionToSeq<T>(o: Option<T>): (s: seq<T>)
    ensures o.None? <==> s == []
    ensures o.Some? ==> s == [o.value]
  {
    if o.Some? then [o.value] else []
  }

  /** Severity attached to every status message (MessageType in the source). */
  datatype MessageType = Information | Warning | Error

  /** What a status message reports; the exact wording is not modelled. */
  datatype Event =
    | Parsed | ParseFailed | Found | TitleNotFound | Skipped | CoverMissing
    | Tagged | CoverDownloadFailed | TagWriteFailed
    | InvalidCharsRemoved | Renamed | RenameCollision | RenameFailed

  datatype Status = Status(Kind: MessageType, Event: Event)

  /** The options of AutoTagConfig that the core reads. */
  datatype Config = Config(
    TagFiles: bool,
    RenameFiles: bool,
    AddCoverArt: bool,
    WindowsSafe: bool,
    Verbose: bool,
    ExtendedTagging: bool,
    ManualMode: bool)

  /** A path as Path.GetDirectoryName, Path.GetFileNameWithoutExtension and
      Path.GetExtension split it; Path.Combine puts the three back together. */
  datatype FilePath = FilePath(Dir: string, Stem: string, Ext: string)

  /** One file to process. A null or empty subtitle path is None. */
  datatype TaggingFile = TaggingFile(Path: FilePath, SubtitlePath: Option<FilePath>, Taggable: bool)

  /** One (title, year or "Unknown") pair offered to the selection callback. */
  datatype Choice = Choice(Title: string, Year: string)

  /** string.IsNullOrEmpty */
  predicate IsNullOrEmpty(s: Option<string>) {
    s.None? || s.value == ""
  }

  /** char.IsWhiteSpace: the Unicode space separators, the line and paragraph
      separators, and the control characters U+0009..U+000D and U+0085. */
  predicate IsWhiteSpace(c: char) {
    ('\t' <= c <= '\r') || c == ' ' || c == '\U{0085}' || c == '\U{00A0}' || c == '\U{1680}'
    || ('\U{2000}' <= c <= '\U{200A}') || c == '\U{2028}' || c == '\U{2029}'
    || c == '\U{202F}' || c == '\U{205F}' || c == '\U{3000}'
  }

  /** string.IsNullOrWhiteSpace on a non-null string. */
  predicate IsBlank(s: string) {
    forall i :: 0 <= i < |s| ==> IsWhiteSpace(s[i])
  }

  /** string.Replace(char, char): every occurrence of `from` becomes `to`. */
  function Replace(s: string, from: char, to: char): (r: string)
    ensures |r| == |s|
    ensures forall i :: 0 <= i < |s| ==> r[i] == if s[i] == from then to else s[i]
  {
    if s == [] then [] else [if s[0] == from then to else s[0]] + Replace(s[1..], from, to)
  }

  /** String.Join("", s.Split(bad)) for a non-empty `bad`: s with every
      character of `bad` removed. (Split with an empty separator array breaks
      at white space instead; the callers always pass a set that holds the
      platform's invalid characters, which is never empty.) */
  function RemoveChars(s: string, bad: set<char>): (r: string)
    ensures forall i :: 0 <= i < |r| ==> r[i] !in bad
    ensures forall c :: c in r <==> c in s && c !in bad
    ensures |r| <= |s|
    ensures |r| == |s| <==> forall i :: 0 <= i < |s| ==> s[i] !in bad
  {
    if s == [] then []
    else if s[0] in bad then RemoveChars(s[1..], bad)
    else [s[0]] + RemoveChars(s[1..], bad)
  }

  /** Removing characters commutes with concatenation: together with the
      one-character case this says that the kept characters keep their order. */
  lemma {:induction false} RemoveCharsAppend(a: string, b: string, bad: set<char>)
    ensures RemoveChars(a + b, bad) == RemoveChars(a, bad) + RemoveChars(b, bad)
  {
    if a == [] {
      assert a + b == b;
    } else {
      var head := if a[0] in bad then [] else [a[0]];
      assert (a + b)[0] == a[0];
      assert (a + b)[1..] == a[1..] + b;
      RemoveCharsAppend(a[1..], b, bad);
      AppendAssoc(head, RemoveChars(a[1..], bad), RemoveChars(b, bad));
    }
  }

  /** A string with no character of `bad` is left as it is. */
  lemma {:induction false} RemoveCharsKeepsClean(s: string, bad: set<char>)
    requires forall i :: 0 <= i < |s| ==> s[i] !in bad
    ensures RemoveChars(s, bad) == s
  {
    if s != [] {
      assert s[0] !in bad;
      RemoveCharsKeepsClean(s[1..], bad);
      assert [s[0]] + s[1..] == s;
    }
  }

  /** Removing the same characters twice removes nothing more. */
  lemma RemoveCharsIdempotent(s: string, bad: set<char>)
    ensures RemoveChars(RemoveChars(s, bad), bad) == RemoveChars(s, bad)
  {
    RemoveCharsKeepsClean(RemoveChars(s, bad), bad);
  }

  lemma AppendAssoc<T>(x: seq<T>, y: seq<T>, z: seq<T>)
    ensures x + y + z == x + (y + z)
  {
  }

  /** Enumerable.Select: f applied to each element, in order. */
  function Select<T, U>(s: seq<T>, f: T -> U): (r: seq<U>)
    ensures |r| == |s|
    ensures forall i :: 0 <= i < |s| ==> r[i] == f(s[i])
  {
    if s == [] then [] else [f(s[0])] + Select(s[1..], f)
  }

  /** The index of the first element satisfying p, as used by First and
      FirstOrDefault with a predicate. */
  function FirstIndex<T>(s: seq<T>, p: T -> bool): (r: Option<nat>)
    ensures r.Some? ==> r.value < |s| && p(s[r.value])
    ensures r.Some? ==> forall j :: 0 <= j < r.value ==> !p(s[j])
    ensures r.None? <==> forall j :: 0 <= j < |s| ==> !p(s[j])
  {
    if s == [] then None
    else if p(s[0]) then Some(0)
    else match FirstIndex(s[1..], p)
      case None => None
      case Some(k) => Some(k + 1)
  }

  /** Upper-case mapping used for case-insensitive comparison (ASCII letters). */
  function FoldCase(c: char): (u: char)
    ensures 'a' <= c <= 'z' ==> 'A' <= u <= 'Z' && u as int == c as int - 32
    ensures !('a' <= c <= 'z') ==> u == c
  {
    if 'a' <= c <= 'z' then (c as int - 32) as char else c
  }

  /** string.Equals(other, StringComparison.InvariantCultureIgnoreCase),
      approximated character by character with ASCII case folding: strings
      of different lengths never match here, while the culture-aware
      comparison skips ignorable code points and equates canonically
      equivalent sequences. */
  predicate EqualsIgnoreCase(a: string, b: string) {
    |a| == |b| && forall i :: 0 <= i < |a| ==> FoldCase(a[i]) == FoldCase(b[i])
  }

  /** The callbacks the host hands to the core. Each call is recorded, so that
      the model can state which messages were emitted, which new paths were
      reported and which candidate lists were offered for selection. */
  class Host {
    var Statuses: seq<Status>
    var PathUpdates: seq<FilePath>
    var Prompts: seq<seq<Choice>>

    constructor ()
      ensures Statuses == [] && PathUpdates == [] && Prompts == []
    {
      Statuses, PathUpdates, Prompts := [], [], [];
    }

    /** setStatus(message, type) */
    method SetStatus(s: Status)
      modifies this`Statuses
      ensures Statuses == old(Statuses) + [s]
    {
      Statuses := Statuses + [s];
    }

    /** setPath(newPath) */
    method SetPath(p: FilePath)
      modifies this`PathUpdates
      ensures PathUpdates == old(PathUpdates) + [p]
    {
      PathUpdates := PathUpdates + [p];
    }

    /** selectResult(choices); the user's answer is the oracle `select`. */
    method SelectResult(choices: seq<Choice>, select: seq<Choice> -> Option<int>) returns (selection: Option<int>)
      modifies this`Prompts
      ensures Prompts == old(Prompts) + [choices]
      ensures selection == select(choices)
    {
      Prompts := Prompts + [choices];
      selection := select(choices);
    }
  }
}
