/**
 * The subtitle tracks offered with a video: the `.vtt` files of its folder
 * whose basename is the video's, each read as plain, default, and/or
 * tagged with a language abbreviation.
 */
module Subtitles {
  import opened Wrappers
  import NameParts
  import Languages
  import opened HttpText
  import Request

  const VTT: string := ".vtt"
  const DEFAULT: string := ".default."

  /** One `<track>`: whether it is the default, the language abbreviation and its long name, and the file name. */
  datatype Track = Track(isDefault: bool, languageShort: string, languageLong: string, name: string)

  /**
   * The reading of a subtitle extension: `.default.` at the front marks
   * the default track, and what sits between that marker (or the first
   * dot) and `.vtt` is the language abbreviation.
   */
  function ExtensionTrack(ext: string): (track: (bool, string))
    ensures track.0 <==> Request.StartsWith(ext, DEFAULT)
    ensures track.1 != [] ==>
      |track.1| + |VTT| < |ext| && track.1 == ext[|ext| - |VTT| - |track.1|..|ext| - |VTT|]
  {
    if Request.StartsWith(ext, DEFAULT) then
      (true, if |ext| > |DEFAULT| + |VTT| then ext[|DEFAULT|..|ext| - |VTT|] else "")
    else
      (false, if |ext| > |VTT| then ext[1..|ext| - |VTT|] else "")
  }

  /** The body of the loop in `list_subtitles`: a track, or nothing for a file that is not a subtitle of this video. */
  function SubtitleOf(videoName: string, name: string): Option<Track> {
    var parts := NameParts.Split(name);
    if parts.basename != videoName || !Request.EndsWith(parts.extension, VTT) then None
    else
      var (isDefault, short) := ExtensionTrack(parts.extension);
      Some(Track(isDefault, short, Languages.AbbreviationToName(short), name))
  }

  /** The tracks of a folder's entries, in directory order; an unreadable entry or name is skipped. */
  function Tracks(entries: seq<Option<string>>, videoName: string): seq<Track> {
    if entries == [] then []
    else
      var init := Tracks(entries[..|entries| - 1], videoName);
      match entries[|entries| - 1]
      case None => init
      case Some(name) =>
        match SubtitleOf(videoName, name)
        case None => init
        case Some(t) => init + [t]
  }

  /** The `<track>` element written for a track, its text attributes escaped. */
  function TrackTag(t: Track): (tag: string)
    ensures Request.StartsWith(tag, "<track ") && Request.EndsWith(tag, "'>")
  {
    "<track " + (if t.isDefault then "default" else "") + " kind='subtitles' srclang='" + Escaped(t.languageShort)
    + "' label='" + t.languageLong + "' src='" + Escaped(t.name) + "'>"
  }

  function Tags(tracks: seq<Track>): string {
    if tracks == [] then [] else Tags(tracks[..|tracks| - 1]) + TrackTag(tracks[|tracks| - 1])
  }

  /** What `list_subtitles` returns: nothing for an unreadable folder, else the tags of its tracks. */
  function SubtitlesSpec(folder: Option<seq<Option<string>>>, videoName: string): string {
    match folder
    case None => ""
    case Some(entries) => Tags(Tracks(entries, videoName))
  }

  /** `list_subtitles`: one pass over the folder, appending a `<track>` for each subtitle of the video. */
  method ListSubtitles(folder: Option<seq<Option<string>>>, videoName: string) returns (result: string)
    ensures result == SubtitlesSpec(folder, videoName)
  {
    result := "";
    if folder.None? {
      return;
    }
    var entries := folder.value;
    for i := 0 to |entries|
      invariant result == Tags(Tracks(entries[..i], videoName))
    {
      if entries[i].None? {
        TracksSkip(entries, i, videoName);
        continue;
      }
      var name := entries[i].value;
      var parts := NameParts.New(name);
      var ext := parts.extension;
      if parts.basename != videoName || !Request.EndsWith(ext, VTT) {
        TracksSkip(entries, i, videoName);
        continue;
      }
      var (isDefault, languageShort) := ExtensionTrack(ext);
      var languageLong := Languages.AbbreviationToName(languageShort);
      var shortText := EscapeHtml(languageShort);
      var nameText := EscapeHtml(name);
      ghost var t := Track(isDefault, languageShort, languageLong, name);
      SubtitleOfParts(videoName, name, parts, isDefault, languageShort);
      TracksAdd(entries, i, videoName, t);
      TagsAppend(Tracks(entries[..i], videoName), t);
      result := result + ("<track " + (if isDefault then "default" else "") + " kind='subtitles' srclang='"
        + CowText(shortText) + "' label='" + languageLong + "' src='" + CowText(nameText) + "'>");
    }
    assert entries[..|entries|] == entries;
  }

  lemma SubtitleOfParts(videoName: string, name: string, parts: NameParts.NameParts, isDefault: bool, short: string)
    requires parts == NameParts.Split(name) && parts.basename == videoName && Request.EndsWith(parts.extension, VTT)
    requires ExtensionTrack(parts.extension) == (isDefault, short)
    ensures SubtitleOf(videoName, name) == Some(Track(isDefault, short, Languages.AbbreviationToName(short), name))
  {
  }

  lemma TracksSkip(entries: seq<Option<string>>, i: nat, videoName: string)
    requires i < |entries| && (entries[i].None? || SubtitleOf(videoName, entries[i].value).None?)
    ensures Tracks(entries[..i + 1], videoName) == Tracks(entries[..i], videoName)
  {
    assert entries[..i + 1][..i] == entries[..i];
  }

  lemma TracksAdd(entries: seq<Option<string>>, i: nat, videoName: string, t: Track)
    requires i < |entries| && entries[i].Some? && SubtitleOf(videoName, entries[i].value) == Some(t)
    ensures Tracks(entries[..i + 1], videoName) == Tracks(entries[..i], videoName) + [t]
  {
    assert entries[..i + 1][..i] == entries[..i];
  }

  lemma TagsAppend(tracks: seq<Track>, t: Track)
    ensures Tags(tracks + [t]) == Tags(tracks) + TrackTag(t)
  {
    assert (tracks + [t])[..|tracks|] == tracks;
  }

  /** A file is a subtitle of the video exactly when its basename is the video's and its extension ends in `.vtt`. */
  lemma SubtitleKept(videoName: string, name: string)
    ensures SubtitleOf(videoName, name).Some? <==>
      NameParts.Split(name).basename == videoName && Request.EndsWith(NameParts.Split(name).extension, VTT)
    ensures SubtitleOf(videoName, name).Some? ==> SubtitleOf(videoName, name).value.name == name
  {
  }

  /** Whenever a language is read, the extension is the marker, the language, and `.vtt`, so nothing is lost. */
  lemma ExtensionRebuilt(ext: string)
    requires Request.EndsWith(ext, VTT)
    ensures var (isDefault, short) := ExtensionTrack(ext);
      short != [] ==> ext == (if isDefault then DEFAULT else [ext[0]]) + short + VTT
  {
    var (isDefault, short) := ExtensionTrack(ext);
    if short != [] {
      var front := if isDefault then |DEFAULT| else 1;
      assert ext[..front] == (if isDefault then DEFAULT else [ext[0]]);
      assert ext == ext[..front] + ext[front..|ext| - |VTT|] + ext[|ext| - |VTT|..];
    }
  }

  /** A subtitle of the video: its track is read from the extension alone. */
  lemma SubtitleOfExtension(videoName: string, ext: string)
    requires '.' !in videoName && ext != [] && ext[0] == '.' && Request.EndsWith(ext, VTT)
    ensures var (isDefault, short) := ExtensionTrack(ext);
      SubtitleOf(videoName, videoName + ext) == Some(Track(isDefault, short, Languages.AbbreviationToName(short), videoName + ext))
  {
    SplitAt(videoName, ext);
  }

  /** `NAME.vtt`: not the default, no language, so labelled with the assumed language. */
  lemma PlainSubtitle(videoName: string)
    requires '.' !in videoName
    ensures SubtitleOf(videoName, videoName + VTT) == Some(Track(false, "", Languages.ASSUMED_LANGUAGE, videoName + VTT))
  {
    SubtitleOfExtension(videoName, VTT);
  }

  /** `NAME.default.vtt`: the default track, with no language. */
  lemma DefaultSubtitle(videoName: string)
    requires '.' !in videoName
    ensures SubtitleOf(videoName, videoName + ".default.vtt")
      == Some(Track(true, "", Languages.ASSUMED_LANGUAGE, videoName + ".default.vtt"))
  {
    var ext := ".default.vtt";
    assert ext[..|DEFAULT|] == DEFAULT;
    assert ext[|ext| - |VTT|..] == VTT;
    SubtitleOfExtension(videoName, ext);
  }

  /** `NAME.default.LANG.vtt`: the default track in language `LANG`. */
  lemma DefaultLanguageSubtitle(videoName: string, language: string)
    requires '.' !in videoName && language != []
    ensures var name := videoName + DEFAULT + language + VTT;
      SubtitleOf(videoName, name) == Some(Track(true, language, Languages.AbbreviationToName(language), name))
  {
    var ext := DEFAULT + language + VTT;
    assert videoName + DEFAULT + language + VTT == videoName + ext;
    assert ext[..|DEFAULT|] == DEFAULT;
    assert ext[|ext| - |VTT|..] == VTT;
    assert ext[|DEFAULT|..|ext| - |VTT|] == language;
    SubtitleOfExtension(videoName, ext);
  }

  /** `NAME.LANG.vtt`: a track in language `LANG`, unless `LANG` itself starts with `default.`. */
  lemma LanguageSubtitle(videoName: string, language: string)
    requires '.' !in videoName && language != []
    requires !Request.StartsWith(language + VTT, "default.")
    ensures var name := videoName + "." + language + VTT;
      SubtitleOf(videoName, name) == Some(Track(false, language, Languages.AbbreviationToName(language), name))
  {
    var ext := "." + language + VTT;
    assert videoName + "." + language + VTT == videoName + ext;
    assert ext[|ext| - |VTT|..] == VTT;
    assert ext[1..|ext| - |VTT|] == language;
    assert ext[1..] == language + VTT;
    assert |ext| >= 9 ==> ext[..9][1..] == (language + VTT)[..8];
    assert DEFAULT[1..] == "default.";
    assert !Request.StartsWith(ext, DEFAULT);
    SubtitleOfExtension(videoName, ext);
  }

  /** A name made of a dot-free basename and an extension that starts with a dot splits into exactly those. */
  lemma SplitAt(basename: string, ext: string)
    requires '.' !in basename && ext != [] && ext[0] == '.'
    ensures NameParts.Split(basename + ext) == NameParts.NameParts(basename, ext)
  {
    NameParts.SplitUnique(basename + ext, NameParts.NameParts(basename, ext));
  }

  /**
   * No quoted attribute of the tag can be closed early: the language and the
   * file name are escaped, and the label, written as it is, is a name from
   * the language table.
   */
  lemma TagAttributesEscaped(t: Track)
    ensures '\'' !in Escaped(t.languageShort) && '\'' !in Escaped(t.name)
    ensures t.languageLong == Languages.AbbreviationToName(t.languageShort) ==> '\'' !in t.languageLong
  {
    EscapedHasNoMarkup(t.languageShort);
    EscapedHasNoMarkup(t.name);
    Languages.NamesHaveNoApostrophe(t.languageShort);
  }
}
