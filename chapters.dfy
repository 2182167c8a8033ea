/**
 * Chapter naming, book-level title resolution and the chapter timeline of
 * `create_m4b`, with each file's tags and probed duration given as values.
 */
module Chapters {
  import opened Wrappers
  import opened Text
  import Sanitize
  import Files
  import Paths
  import ChapterIndex

  const MaxChapterSeconds: real := 86400.0
  const FallbackSeconds: real := 1.0
  const DefaultTitle := "Audiobook"
  const DefaultArtist := "Unknown Artist"
  const DefaultGenre := "Audiobook"

  /** `f"Chapter {index + 1}"`. */
  function ChapterOrdinal(index: nat): (r: string)
    ensures r != [] && Sanitize.AllTitleChars(r)
    ensures r != Sanitize.UnnamedChapter
  {
    var digits := NatToString(index + 1);
    assert forall i :: 0 <= i < |digits| ==> Sanitize.IsTitleChar(digits[i]);
    var r := "Chapter " + digits;
    assert r[0] != Sanitize.UnnamedChapter[0];
    r
  }

  /**
   * `get_chapter_name`: the index entry for the exact file name, else a
   * non-empty `title` tag, else the file's stem, each sanitised; a stem that
   * sanitises to the placeholder gives the chapter's ordinal instead.
   */
  function GetChapterName(name: string, index: nat, mapping: map<string, string>, metadata: map<string, string>): (r: string)
    ensures r != []
  {
    if name in mapping then Sanitize.SanitizeChapterName(mapping[name])
    else if "title" in metadata && metadata["title"] != [] then Sanitize.SanitizeChapterName(metadata["title"])
    else
      var fromStem := Sanitize.SanitizeChapterName(Files.Stem(name));
      if fromStem != Sanitize.UnnamedChapter then fromStem else ChapterOrdinal(index)
  }

  /** Whatever branch is taken, the name is free of metacharacters and control characters. */
  lemma ChapterNameIsSafe(name: string, index: nat, mapping: map<string, string>, metadata: map<string, string>)
    ensures Sanitize.AllTitleChars(GetChapterName(name, index, mapping, metadata))
    ensures |GetChapterName(name, index, mapping, metadata)| <= Sanitize.MaxChapterNameLength
            || GetChapterName(name, index, mapping, metadata) == ChapterOrdinal(index)
  {
  }

  /** Without an index entry or title tag the placeholder never reaches the output. */
  lemma UntitledFilesGetOrdinals(name: string, index: nat, mapping: map<string, string>, metadata: map<string, string>)
    requires name !in mapping
    requires "title" !in metadata || metadata["title"] == []
    ensures GetChapterName(name, index, mapping, metadata) != Sanitize.UnnamedChapter
    ensures Files.Stem(name) == [] ==> GetChapterName(name, index, mapping, metadata) == ChapterOrdinal(index)
  {
  }

  /**
   * A title read from the index is used exactly as the index stored it: the
   * index already sanitised it, and sanitising twice changes nothing.
   */
  lemma IndexTitleUsedVerbatim(rows: seq<seq<string>>, name: string, index: nat, metadata: map<string, string>)
    requires ChapterIndex.ParseRows(rows).Success?
    requires name in ChapterIndex.ParseRows(rows).value.mapping
    ensures var m := ChapterIndex.ParseRows(rows).value.mapping;
            GetChapterName(name, index, m, metadata) == m[name]
  {
    ChapterIndex.ParseRowsLastWins(rows);
    var es := ChapterIndex.EntryRows(rows);
    var m := ChapterIndex.ParseRows(rows).value.mapping;
    var k :| 0 <= k < |es| && ChapterIndex.LastNamed(ChapterIndex.ParseRows(rows).value.order, name, k)
             && m[name] == ChapterIndex.RowChapter(es[k]);
    Sanitize.SanitizeChapterNameIdempotent(Strip(es[k][1]));
  }

  // ---------------------------------------------------------------------------
  // Book title, artist and genre
  // ---------------------------------------------------------------------------

  /** `metadata.get('album', metadata.get('title', ''))`. */
  function MetadataTitle(metadata: map<string, string>): string {
    if "album" in metadata then metadata["album"]
    else if "title" in metadata then metadata["title"]
    else []
  }

  /** `Path(input_dir).name if input_dir else ''`. */
  function DirTitle(inputDir: Option<string>): string {
    if inputDir.Some? && inputDir.value != [] then Paths.PathName(inputDir.value) else []
  }

  /** A title override counts only when it is given and not empty. */
  predicate Overrides(titleOverride: Option<string>) {
    titleOverride.Some? && titleOverride.value != []
  }

  /**
   * The book title: a non-empty override; else, when both the first file's
   * tags and the directory offer one, the user's answer (`1` picks the tags,
   * anything else or no answer the directory); else whichever exists; else
   * `Audiobook`. `choice` is `None` when the prompt hit end of input or an
   * interrupt.
   */
  function ResolveBookTitle(titleOverride: Option<string>, metadata: map<string, string>,
                            inputDir: Option<string>, choice: Option<string>): (r: string)
    ensures r != []
    ensures Overrides(titleOverride) ==> r == titleOverride.value
    ensures !Overrides(titleOverride) ==>
              r == MetadataTitle(metadata) || r == DirTitle(inputDir) || r == DefaultTitle
    ensures !Overrides(titleOverride) && MetadataTitle(metadata) != [] && DirTitle(inputDir) != [] ==>
              r == (if choice.Some? && Strip(choice.value) == "1" then MetadataTitle(metadata) else DirTitle(inputDir))
    ensures !Overrides(titleOverride) && MetadataTitle(metadata) != [] && DirTitle(inputDir) == [] ==>
              r == MetadataTitle(metadata)
    ensures !Overrides(titleOverride) && MetadataTitle(metadata) == [] && DirTitle(inputDir) != [] ==>
              r == DirTitle(inputDir)
    ensures !Overrides(titleOverride) && MetadataTitle(metadata) == [] && DirTitle(inputDir) == [] ==>
              r == DefaultTitle
  {
    if Overrides(titleOverride) then titleOverride.value
    else
      var metadataTitle := MetadataTitle(metadata);
      var dirTitle := DirTitle(inputDir);
      if metadataTitle != [] && dirTitle != [] then
        match choice
        case None => dirTitle
        case Some(answer) =>
          var c := Strip(answer);
          if c == "1" then metadataTitle
          else if c == "2" then dirTitle
          else dirTitle
      else if metadataTitle != [] then metadataTitle
      else if dirTitle != [] then dirTitle
      else DefaultTitle
  }

  /** With both sources on offer, the tags win only on an explicit `1`. */
  lemma TitleFromTagsOnlyOnOne(metadata: map<string, string>, inputDir: Option<string>, choice: Option<string>)
    requires MetadataTitle(metadata) != [] && DirTitle(inputDir) != []
    requires MetadataTitle(metadata) != DirTitle(inputDir)
    ensures ResolveBookTitle(None, metadata, inputDir, choice) == MetadataTitle(metadata)
            <==> choice.Some? && Strip(choice.value) == "1"
  {
  }

  /** `metadata.get('artist', metadata.get('albumartist', 'Unknown Artist'))`. */
  function BookArtist(metadata: map<string, string>): (r: string)
    ensures "artist" in metadata ==> r == metadata["artist"]
    ensures "artist" !in metadata && "albumartist" in metadata ==> r == metadata["albumartist"]
    ensures "artist" !in metadata && "albumartist" !in metadata ==> r == DefaultArtist
  {
    if "artist" in metadata then metadata["artist"]
    else if "albumartist" in metadata then metadata["albumartist"]
    else DefaultArtist
  }

  /** `metadata.get('genre', 'Audiobook')`. */
  function BookGenre(metadata: map<string, string>): (r: string)
    ensures "genre" in metadata ==> r == metadata["genre"]
    ensures "genre" !in metadata ==> r == DefaultGenre
  {
    if "genre" in metadata then metadata["genre"] else DefaultGenre
  }

  // ---------------------------------------------------------------------------
  // Timeline
  // ---------------------------------------------------------------------------

  /** One input file as the timeline loop sees it: name, tags and probed duration in seconds. */
  datatype Track = Track(name: string, metadata: map<string, string>, duration: Option<real>)

  datatype Chapter = Chapter(start: real, end: real, title: string)

  /**
   * How long a file's chapter lasts: its probed duration when in (0, 86400],
   * otherwise (probe failure, unparsable or out-of-range value) one second.
   */
  function ChapterLength(d: Option<real>): (r: real)
    ensures 0.0 < r <= MaxChapterSeconds
    ensures d.Some? && 0.0 < d.value <= MaxChapterSeconds ==> r == d.value
    ensures !(d.Some? && 0.0 < d.value <= MaxChapterSeconds) ==> r == FallbackSeconds
  {
    if d.Some? && 0.0 < d.value <= MaxChapterSeconds then d.value else FallbackSeconds
  }

  function TotalLength(tracks: seq<Track>): real {
    if tracks == [] then 0.0 else TotalLength(tracks[..|tracks| - 1]) + ChapterLength(tracks[|tracks| - 1].duration)
  }

  /** Each chapter lasts its file's chapter length. */
  predicate LastsItsLength(chapters: seq<Chapter>, tracks: seq<Track>)
    requires |chapters| <= |tracks|
  {
    forall j :: 0 <= j < |chapters| ==> chapters[j].end - chapters[j].start == ChapterLength(tracks[j].duration)
  }

  lemma LastsSnoc(chapters: seq<Chapter>, tracks: seq<Track>, c: Chapter)
    requires |chapters| < |tracks| && LastsItsLength(chapters, tracks)
    requires c.end - c.start == ChapterLength(tracks[|chapters|].duration)
    ensures LastsItsLength(chapters + [c], tracks)
  {
  }

  /** Each chapter carries the name `get_chapter_name` gives its file at its position. */
  predicate TitledByName(chapters: seq<Chapter>, tracks: seq<Track>, mapping: map<string, string>)
    requires |chapters| <= |tracks|
  {
    forall j :: 0 <= j < |chapters| ==>
      chapters[j].title == GetChapterName(tracks[j].name, j, mapping, tracks[j].metadata)
  }

  lemma TitledSnoc(chapters: seq<Chapter>, tracks: seq<Track>, mapping: map<string, string>, c: Chapter)
    requires |chapters| < |tracks| && TitledByName(chapters, tracks, mapping)
    requires c.title == GetChapterName(tracks[|chapters|].name, |chapters|, mapping, tracks[|chapters|].metadata)
    ensures TitledByName(chapters + [c], tracks, mapping)
  {
    var cs := chapters + [c];
    forall j | 0 <= j < |cs|
      ensures cs[j].title == GetChapterName(tracks[j].name, j, mapping, tracks[j].metadata)
    {
      if j < |chapters| {
        assert cs[j] == chapters[j];
      }
    }
  }

  /** Each chapter ends where the next one starts. */
  predicate Contiguous(chapters: seq<Chapter>) {
    forall j, k :: 0 <= j < |chapters| && 0 <= k < |chapters| && k == j + 1 ==> chapters[j].end == chapters[k].start
  }

  lemma ContiguousSnoc(chapters: seq<Chapter>, c: Chapter)
    requires Contiguous(chapters)
    requires chapters != [] ==> chapters[|chapters| - 1].end == c.start
    ensures Contiguous(chapters + [c])
  {
  }

  lemma TotalLengthSnoc(tracks: seq<Track>, i: nat)
    requires i < |tracks|
    ensures TotalLength(tracks[..i + 1]) == TotalLength(tracks[..i]) + ChapterLength(tracks[i].duration)
  {
    assert tracks[..i + 1][..i] == tracks[..i];
  }

  /**
   * `chapters` is the timeline of the first `|chapters|` tracks: the first
   * starts at 0, each ends where the next begins, each lasts its file's
   * chapter length and carries its file's chapter name, and the last ends at
   * the total length of those tracks.
   */
  predicate IsTimeline(chapters: seq<Chapter>, tracks: seq<Track>, mapping: map<string, string>)
    requires |chapters| <= |tracks|
  {
    && (|chapters| > 0 ==>
          chapters[0].start == 0.0 && chapters[|chapters| - 1].end == TotalLength(tracks[..|chapters|]))
    && Contiguous(chapters)
    && LastsItsLength(chapters, tracks)
    && TitledByName(chapters, tracks, mapping)
  }

  lemma TimelineStep(chapters: seq<Chapter>, tracks: seq<Track>, mapping: map<string, string>, c: Chapter)
    requires |chapters| < |tracks| && IsTimeline(chapters, tracks, mapping)
    requires c.start == TotalLength(tracks[..|chapters|])
    requires c.end - c.start == ChapterLength(tracks[|chapters|].duration)
    requires c.title == GetChapterName(tracks[|chapters|].name, |chapters|, mapping, tracks[|chapters|].metadata)
    ensures IsTimeline(chapters + [c], tracks, mapping)
  {
    TotalLengthSnoc(tracks, |chapters|);
    LastsSnoc(chapters, tracks, c);
    TitledSnoc(chapters, tracks, mapping, c);
    ContiguousSnoc(chapters, c);
    if chapters == [] {
      assert tracks[..0] == [];
    }
  }

  /**
   * The timeline loop: one chapter per file, the first at 0, each ending
   * where the next begins and lasting the file's chapter length, titled by
   * `get_chapter_name`; the last ends at the total length.
   */
  method BuildTimeline(tracks: seq<Track>, mapping: map<string, string>) returns (chapters: seq<Chapter>)
    ensures |chapters| == |tracks|
    ensures |chapters| > 0 ==> chapters[0].start == 0.0
    ensures forall i, k :: 0 <= i < |chapters| && 0 <= k < |chapters| && k == i + 1 ==> chapters[i].end == chapters[k].start
    ensures LastsItsLength(chapters, tracks)
    ensures TitledByName(chapters, tracks, mapping)
    ensures |chapters| > 0 ==> chapters[|chapters| - 1].end == TotalLength(tracks)
    ensures IsTimeline(chapters, tracks, mapping)
  {
    chapters := [];
    var currentTime: real := 0.0;
    for i := 0 to |tracks|
      invariant |chapters| == i
      invariant currentTime == TotalLength(tracks[..i])
      invariant IsTimeline(chapters, tracks, mapping)
    {
      var t := tracks[i];
      var chapterName := GetChapterName(t.name, i, mapping, t.metadata);
      var d := t.duration;
      var length := FallbackSeconds;
      if d.Some? && !(d.value <= 0.0 || d.value > MaxChapterSeconds) {
        length := d.value;
      }
      assert length == ChapterLength(t.duration);
      var c := Chapter(currentTime, currentTime + length, chapterName);
      TimelineStep(chapters, tracks, mapping, c);
      TotalLengthSnoc(tracks, i);
      chapters := chapters + [c];
      currentTime := currentTime + length;
    }
    TimelineComplete(chapters, tracks, mapping);
  }

  /** A timeline of all the tracks spells out as the loop's promises, ending at the total length. */
  lemma TimelineComplete(chapters: seq<Chapter>, tracks: seq<Track>, mapping: map<string, string>)
    requires |chapters| == |tracks| && IsTimeline(chapters, tracks, mapping)
    ensures |chapters| > 0 ==> chapters[0].start == 0.0
    ensures forall i, k :: 0 <= i < |chapters| && 0 <= k < |chapters| && k == i + 1 ==> chapters[i].end == chapters[k].start
    ensures LastsItsLength(chapters, tracks)
    ensures TitledByName(chapters, tracks, mapping)
    ensures |chapters| > 0 ==> chapters[|chapters| - 1].end == TotalLength(tracks)
  {
    assert tracks[..|tracks|] == tracks;
  }

  /** Three files of 10, 20 and 15 seconds give chapters [0,10), [10,30) and [30,45). */
  method TimelineExample() returns (chapters: seq<Chapter>)
    ensures |chapters| == 3
    ensures chapters[0].start == 0.0 && chapters[0].end == 10.0
    ensures chapters[1].start == 10.0 && chapters[1].end == 30.0
    ensures chapters[2].start == 30.0 && chapters[2].end == 45.0
  {
    var tracks := [Track("a.mp3", map[], Some(10.0)), Track("b.mp3", map[], Some(20.0)), Track("c.mp3", map[], Some(15.0))];
    chapters := BuildTimeline(tracks, map[]);
  }
}
