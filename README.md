# audiobook-creator in Dafny

audiobook-creator (`main.py`) turns a folder of audio files into one chaptered
`.m4b` audiobook. `ffprobe` and `ffmpeg` do the decoding, encoding and muxing.
Everything the program decides about *what* to hand those processes is
modelled here. Each probe result, filesystem answer and exit code is an input
value:

- the security sanitisers for file names, chapter names and tag values;
- the path and file gates;
- directory discovery, the TSV chapter index and the reorder merge;
- the bitrate analysis and the AAC bitrate ladder;
- chapter naming, book title/artist/genre resolution and the timeline;
- the three artifacts `create_m4b` produces: the concat list, the
  `FFMETADATA1` chapter document and the `ffmpeg` argument vector;
- the global `TEMP_FILES` registry with its cleanup.

Modules, one per component of the program:

| module | file | part of `main.py` |
|---|---|---|
| `Wrappers` | wrappers.dfy | `Option` / `Result` |
| `Text` | text.dfy | the Python `str` operations used (`strip`, `lower`, `rfind`, slicing, `str(int)`) |
| `Sanitize` | sanitize.dfy | `sanitize_filename`, `sanitize_chapter_name`, tag-value cleaning |
| `Paths` | paths.dfy | `abspath`/`normpath` over segments, `validate_path_within_base`, `safe_path_join`, `validate_output_path` |
| `Files` | files.dfy | `validate_file_safety`, pathlib suffix/stem, `get_audio_files` |
| `ChapterIndex` | index.dfy | `parse_index_file` rows and the reorder merge in `main` |
| `Metadata` | metadata.dfy | the tag loop of `get_file_metadata` |
| `Bitrate` | bitrate.dfy | `get_source_bitrate_and_codec`, `calculate_optimal_aac_bitrate` |
| `Chapters` | chapters.dfy | `get_chapter_name`, title/artist/genre, the timeline loop |
| `Artifacts` | artifacts.dfy | concat list, chapter document, argument vector, success test |
| `Registry` | registry.dfy | `TEMP_FILES`, `cleanup_temp_files`, `extract_cover_art` |
| `Pipeline` | pipeline.dfy | `create_m4b` end to end |

Some modules carry a small reader for what the program writes, so that
round trips can be stated:

- the concat-list line reader follows ffmpeg's `av_get_token` quoting rules;
- the chapter-document reader splits lines at line breaks and each `key=value`
  line at its first `=`.

Where the code disagrees with what its docstrings, comments or
`security_test.py` lead one to expect, the model follows the code:

- `calculate_optimal_aac_bitrate` snaps **up** to the next bracket (every
  test is `<=`), so 100 kbps AAC yields 128, not the nearer 96.
- A blank file field in an index row makes `sanitize_filename` raise and aborts
  the whole parse (`main.py:302`, `main.py:314-316`). The row is not skipped,
  and the guard at `main.py:305` never fires.
- `file_order` keeps duplicate names, so the reorder merge repeats a file that
  the index names twice. The merge is a permutation only when the index names
  are distinct.
- `security_test.py` prints and never asserts. Where its expected values
  differ from what the code returns, the model follows the code. For example,
  `"; rm -rf / #.mp3"` becomes `"_ rm -rf _ _.mp3"`, and the chapter name
  `"Chapter; rm -rf /"` keeps its `/` (`"Chapter rm -rf /"`, not `"Chapter rm -rf "`).

## Model

| member | source | states |
|---|---|---|
| Text.Strip | main.py:302-303 | the result has no leading or trailing whitespace, is empty exactly when the input is empty or all whitespace, is the input with its leading whitespace dropped, read in order, and only whitespace follows it in the input |
| Sanitize.SanitizeFilename | main.py:39-59 | raises (Failure) exactly on empty input; otherwise the result is non-empty, not all whitespace, and every character is an ASCII letter, digit, `.`, `_`, `-` or whitespace |
| Sanitize.FilenameCharsAreInert | main.py:45 | no character that survives the filename filter is a shell metacharacter |
| Sanitize.SanitizeFilenameBounded | main.py:47-57 | when the extension (from the last `.`) is under 255 characters, the result is at most 255 long and starts with neither `.` nor space |
| Sanitize.SanitizeFilenameFixedPoint | main.py:39-59 | a name that is already clean, short and not starting with `.` or space is returned unchanged |
| Sanitize.SanitizeFilenameIdempotent | main.py:39-59 | sanitising twice equals sanitising once, for any non-empty name whose extension is under 255 characters |
| Sanitize.SanitizeFilenameLongExtension | main.py:51-53 | `"a." + "b"*n` with n ≥ 255 becomes `"." + "b"*n`: the cap keeps only the extension, so the result is longer than 255 and starts with `.` |
| Sanitize.SanitizeFilenameAllDots | security_test.py:37 | `"..."` becomes `"sanitized_file"` |
| Sanitize.SanitizeFilenameLongName | security_test.py:38 | `"a"*n + ".mp3"` becomes `"a"*251 + ".mp3"` for every n over 251, 300 included |
| Sanitize.SanitizeFilenameShellInput | security_test.py:32 | `"; rm -rf / #.mp3"` becomes `"_ rm -rf _ _.mp3"`, as the code computes it |
| Sanitize.SanitizeChapterName | main.py:61-79 | the result is non-empty, at most 200 characters, free of `;&\|$(){}[]<>"\`, backquote and control characters, and has no leading or trailing whitespace |
| Sanitize.SanitizeChapterNameFixedPoint | main.py:61-79 | a name that is already clean (non-empty, at most 200 characters, no metacharacter or control character, no surrounding whitespace) comes back unchanged |
| Sanitize.RemoveMetaAppend | main.py:67 | deleting metacharacters works character by character: it distributes over concatenation |
| Sanitize.RemoveControlAppend | main.py:70 | deleting control characters distributes over concatenation in the same way |
| Sanitize.SanitizeChapterNameDeletesMeta | main.py:61-79 | when a name with its metacharacters and control characters deleted is non-empty, at most 200 long and trimmed, the result is exactly that text |
| Sanitize.SanitizeChapterNameDropsMeta | main.py:61-79 | clean text `a`, `b` around runs `m`, `n` of metacharacters and control characters: `a + m + b + n` becomes `a + b` |
| Sanitize.SanitizeChapterNameEvilExample | security_test.py:60 | `"Chapter $(evil)"` becomes `"Chapter evil"` |
| Sanitize.SanitizeChapterNameSlashExample | security_test.py:59 | `"Chapter; rm -rf /"` becomes `"Chapter rm -rf /"`: the `/` is not deleted |
| Sanitize.SanitizeChapterNameKeepsClean | security_test.py:58 | `"Chapter 1"` is kept as it is |
| Sanitize.SanitizeChapterNameIdempotent | main.py:61-79 | applying the chapter-name sanitiser twice equals applying it once |
| Sanitize.SanitizeChapterNameBlank | security_test.py:61-62 | `""` and `"   "` become `"Unnamed Chapter"` |
| Sanitize.SanitizeChapterNameLong | security_test.py:63 | `"A"*300` becomes `"A"*200` |
| Sanitize.CleanTagValue | main.py:350 | the result is at most 500 characters with no control characters, and a value that already meets both is kept unchanged |
| Sanitize.CleanTagValueDropsControl | main.py:350 | control-free `a`, `b` around a run `m` of control characters: `a + m + b` becomes `a + b` when it fits in 500 |
| Sanitize.CleanTagValueExample | main.py:350 | `"a\x01b"` becomes `"ab"` |
| Sanitize.CleanTagValueKeepsPrefix | main.py:350 | the cut keeps the first 500 characters: a control-free `a` of length 500 followed by anything gives `a` |
| Paths.WithinBaseIsDescent | main.py:81-97 | the path passes exactly when its normalised segments equal the base's or extend them by at least one segment, and its absolute form is at most 4096 long |
| Paths.ValidateTraversalExample | security_test.py:78 | `/tmp/test_audiobook/../../../etc/passwd` is rejected for base `/tmp/test_audiobook` |
| Paths.ValidateSubdirExample | security_test.py:79 | `/tmp/test_audiobook/subdir/file.mp3` is accepted |
| Paths.ValidateSiblingExample | main.py:88 | `/tmp/test_audiobook_x` is rejected for base `/tmp/test_audiobook`: a shared string prefix is not containment |
| Paths.SafePathJoin | main.py:120-131 | raises (Failure) exactly when the joined path is not within the base |
| Paths.SafePathJoinContained | main.py:120-131 | a successful join lies at or below the base and itself passes `validate_path_within_base` |
| Paths.SafePathJoinNames | main.py:120-131 | joining plain names below an absolute base succeeds with the base's segments followed by those names, when short enough |
| Paths.SafePathJoinRootBase | main.py:88 | with base `/` every join of names fails, because `"/" + os.sep` is `//` |
| Paths.ValidateOutputPath | main.py:774-803 | fails with "too long" exactly when the absolute path exceeds 4096, and with "not .m4b" exactly when it is short enough but does not end in `.m4b` in any case |
| Paths.OutputPathKeepsDirectory | main.py:795-799 | a valid output keeps its directory and replaces only the last component by its sanitised form |
| Paths.OutputPathDotM4b | main.py:797 | `/books/.m4b` becomes `/books/m4b`, because leading dots are stripped |
| Paths.PathName | main.py:562 | `Path(p).name` is never `.` and has no `/` |
| Paths.PathNameLast | main.py:562 | `Path(d + "/" + n).name` is `n` for a plain name `n` (not empty, not `.`), also with a trailing `/`; the name of `/` is empty |
| Files.ValidateFileSafety | main.py:133-154 | a file passes exactly when it is present, regular and at most 2 GiB, and its name holds none of `/`, `\`, `|`, `;`, `&`, `$`, the backquote, and no `..` |
| Files.DoubleDotRefused | main.py:147 | a name containing `..` always fails the gate |
| Files.SafeFileStaysInBase | main.py:133-154 | joining a name that passes the gate onto an absolute base never escapes it |
| Files.Stem | main.py:383 | the stem followed by pathlib's suffix is the whole name |
| Files.SortByLowerName | main.py:270 | the result is a permutation of the input |
| Files.SortByLowerNameSorted | main.py:270 | the result is ordered by lower-cased name |
| Files.SortByLowerNameStable | main.py:270 | the sort is stable: for every lower-cased name, the entries with that name keep their listing order (`A.mp3` and `a.mp3`) |
| Files.GetAudioFiles | main.py:237-274 | a missing path, a non-directory and more than 1000 entries of any kind each fail; otherwise the result is exactly the audio entries that pass the gate, sorted by lower-cased name |
| Files.DiscoveryKeepsAudio | main.py:256-270 | each entry appears in the discovered list as often as in the listing if it is audio and passes the gate, and otherwise not at all |
| ChapterIndex.ParseIndexFile | main.py:276-316 | a missing index, a non-file and one over 10 MiB each fail; otherwise the result is the row loop's result |
| ChapterIndex.ParseRowsFailure | main.py:296-309 | the row loop fails exactly when there are more than 10000 rows or some two-field row has a blank file field |
| ChapterIndex.ParseRowsOrder | main.py:301-307 | the file order has one entry per row with at least two fields, each the sanitised first field of that row |
| ChapterIndex.ParseRowsLastWins | main.py:306-307 | the mapping's keys are exactly the file-order names, and each maps to the chapter of the last row naming it |
| ChapterIndex.Reorder | main.py:898-911 | the result is the index-matched files followed by the missing ones, and holds exactly the discovered files |
| ChapterIndex.MatchedFollowsIndex | main.py:899-902 | when every index name names a discovered file, the result begins with those files in index order |
| ChapterIndex.MatchedKnownNames | main.py:899-904 | for any index, the first loop skips the names that name no file and, for each other name in index order, takes the first file with that name |
| ChapterIndex.ReorderPermutation | main.py:898-911 | with distinct index names and distinct files, the merge is a permutation of the discovered list, the unindexed files following in listing order |
| ChapterIndex.ReorderDuplicateName | main.py:898-911 | an index naming one file twice puts that file in the result twice |
| Metadata.CleanTags | main.py:347-351 | the loop builds the lower-cased, cleaned tag map |
| Metadata.TagMapClean | main.py:347-351 | every key is lower case, and every value is at most 500 characters with no control characters |
| Metadata.TagMapKeys | main.py:347-351 | every string-valued tag's lower-cased key is present |
| Metadata.TagMapLastWins | main.py:351 | each key holds the cleaned value of the last string tag that lower-cases to it |
| Bitrate.GetSourceBitrateAndCodec | main.py:443-508 | the loop's bitrate and codec equal the aggregation over the probe results |
| Bitrate.AverageInRange | main.py:500-504 | with no counted bitrate the result is 128 kbps mp3; otherwise the mean is strictly between 0 and 10000 |
| Bitrate.MostCommonIsMode | main.py:505 | the chosen codec was counted, occurs at least as often as any other, and no codec counted earlier occurs as often |
| Bitrate.CalculateOptimalAacBitrate | main.py:510-543 | the result is a bracket in {32, 48, 64, 96, 128}: the smallest at or above the codec-equivalent bitrate, or 128 above that |
| Bitrate.OptimalMonotone | main.py:510-543 | a higher source bitrate never yields a lower target for the same codec |
| Bitrate.OptimalIgnoresCase | main.py:526 | the codec lookup ignores case |
| Bitrate.OptimalExamples | main.py:510-543 | 40 kbps aac gives 48, 100 kbps aac gives 128, 100 kbps mp3 gives 96, 100 kbps OPUS gives 128 |
| Bitrate.TargetBitrate | main.py:594-600 | quick mode gives 16; otherwise the result is one of the brackets |
| Chapters.ChapterOrdinal | main.py:384 | `Chapter {index+1}` is a non-empty, clean title and never `Unnamed Chapter` |
| Chapters.GetChapterName | main.py:368-388 | the chapter name is never empty |
| Chapters.ChapterNameIsSafe | main.py:368-388 | every chapter name is free of metacharacters and control characters, and is at most 200 long unless it is the ordinal |
| Chapters.UntitledFilesGetOrdinals | main.py:382-384 | without an index entry or a title tag the name is never `Unnamed Chapter`, and a blank stem gives `Chapter {index+1}` |
| Chapters.IndexTitleUsedVerbatim | main.py:374-375 | a file named by the index gets exactly the chapter that the index's last row for it gave |
| Chapters.ResolveBookTitle | main.py:556-586 | the title is never empty; a non-empty override wins; otherwise, with both tags and directory on offer, the tags' title when the stripped answer is `1` and the directory name for any other answer or none; with the tags only, their title; with the directory only, its name; with neither, `Audiobook` |
| Chapters.BookArtist | main.py:588 | the `artist` tag when present, else the `albumartist` tag when present, else `Unknown Artist` |
| Chapters.BookGenre | main.py:589 | the `genre` tag when present, else `Audiobook` |
| Chapters.TitleFromTagsOnlyOnOne | main.py:564-580 | when tags and directory offer different titles, the tags win exactly when the stripped answer is `1`; any other answer and EOF give the directory name |
| Chapters.ChapterLength | main.py:653-671 | a chapter lasts its probed duration when 0 < d ≤ 86400, and exactly 1 second otherwise |
| Chapters.TimelineStep | main.py:657-671 | appending the next file's chapter at the running total keeps the timeline invariant |
| Chapters.BuildTimeline | main.py:629-671 | one chapter per file; the first starts at 0; each ends where the next starts; each lasts its file's chapter length and carries its file's chapter name; the last ends at the total length |
| Chapters.TimelineExample | main.py:629-671 | durations 10, 20 and 15 s give chapters [0,10), [10,30) and [30,45) |
| Artifacts.LinesJoinLines | main.py:626 | splitting newline-joined lines that contain no line break gives the lines back |
| Artifacts.ConcatLineRoundTrip | main.py:625-626 | the corrected concat line reads back as exactly its path |
| Artifacts.AsWrittenAgreesWithoutApostrophe | main.py:625-626 | for a path without `'` the line as written equals the corrected one |
| Artifacts.AsWrittenMisreadsApostrophe | main.py:625-626 | the line as written never reads back as a path that contains `'` |
| Artifacts.AsWrittenExample | main.py:625-626 | the path `/a'b` as written reads back as `/a""b` |
| Artifacts.ConcatLineAsWritten | main.py:625-626 | the line is `file '`, the path with each `'` replaced by `'"'"'`, then `'`; a path without `'` stands verbatim between the quotes, and the line gains no line break |
| Artifacts.WriteConcatList | main.py:618-626 | fails exactly when some file fails the gate; otherwise it writes one concat line per file, in order, escaped as the program escapes it |
| Artifacts.ConcatListReadsBack | main.py:618-626 | for paths without a line break and without `'`, the concat list has one line per path, and line i reads back as path i |
| Artifacts.ConcatListMisreadsApostrophe | main.py:618-626 | for paths without a line break, a path holding `'` is never read back from its line |
| Artifacts.CorrectedConcatListReadsBack | main.py:618-626 | with `'` escaped as `'\''`, every path without a line break reads back from its line, in order |
| Artifacts.LineBreakNameAddsDirective | main.py:133-154 | the safety gate passes the name `a`, newline, `file b.mp3`, and its path makes the concat list two `file` lines, the second naming `b.mp3` |
| Artifacts.DocumentReadsBack | main.py:686-698 | the chapter document splits back into its header and five lines per chapter: 6 + 5n lines |
| Artifacts.ChapterDocumentFrame | main.py:686-698 | the chapter document begins `;FFMETADATA1`, then `title=` and the sanitised book title, and ends with a line break |
| Artifacts.TagLineReadsBack | main.py:688-698 | a `key=value` line parses back to its key and value when the key has no `=` |
| Artifacts.ChapterReads | main.py:694-698 | a chapter's START, END and title lines parse back to its millisecond bounds and title |
| Artifacts.MsMonotone | main.py:696-697 | converting to whole milliseconds preserves order |
| Artifacts.TimelineDocument | main.py:686-698 | for a contiguous timeline starting at 0, the first START reads back as 0, each END equals the next START, no END precedes its START, and each title reads back unchanged |
| Artifacts.FfmpegInputs | main.py:677-735 | the inputs are the concat list, then the cover when given and still on disk, then the chapter document; the output path is the last argument |
| Artifacts.FfmpegHead | main.py:677-679 | the command opens with `ffmpeg`, then `-threads` and the CPU count, before the concat input |
| Artifacts.CoverInput | main.py:682-683 | the cover becomes an input (`-i` and its path) exactly when a cover path was returned and the file still exists; otherwise nothing is added |
| Artifacts.FfmpegArgsFrame | main.py:677-735 | the command runs `ffmpeg` with `-threads` and the CPU count, names the concat list as its first `-i`, and ends with the output path |
| Artifacts.MetadataIndexNamesChapterList | main.py:700-701 | when a given cover still exists, `-map_metadata` indexes the chapter document among the inputs |
| Artifacts.MissingCoverIndexOutOfRange | main.py:682-701 | a cover that was given but no longer exists leaves `-map_metadata` one past the last input |
| Artifacts.M4bSucceeded | main.py:747-759 | success implies exit code 0 and a non-empty output |
| Registry.FirstIndex | main.py:433 | the index of the first occurrence: it holds the path and no earlier entry does |
| Registry.RemoveFirst | main.py:433 | `list.remove` raises (None) exactly when the path is absent; otherwise the result is the list without the entry at the first occurrence, the rest in their order, so one occurrence fewer |
| Registry.RegisterThenRemove | main.py:395-433 | removing a freshly appended path gives the list back |
| Registry.DiskAfterRemovesListed | main.py:167-176 | cleanup deletes exactly the listed paths whose deletion does not fail |
| Registry.TempRegistry.Register | main.py:605-609 | the path is appended to the list |
| Registry.TempRegistry.Release | main.py:433 | removes the first occurrence when present and reports whether it was |
| Registry.TempRegistry.ReleaseAll | main.py:167-176 | the list is emptied, existing paths are deleted in list order, and those still on disk are the failures plus the unlisted |
| Registry.ExtractCoverArt | main.py:390-441 | a cover is found exactly when a temporary path was made and some file passes the gate and yields a non-empty image; the registry keeps the path on success and drops it after a failure unless deletion fails |
| Registry.FailedExtractionRestoresRegistry | main.py:430-435 | a failed extraction leaves the registry as it found it |
| Pipeline.RegisterTemporaries | main.py:602-613 | the file list and chapter list are appended in that order; then the cover path is appended, stays when a picture came out or its deletion fails, and otherwise loses its first occurrence; a cover is returned exactly when one came out |
| Pipeline.BookSettings | main.py:553-600 | title, artist, genre and bitrate are those the first file's tags, the override, the answer and the probes determine |
| Pipeline.WriteArtifacts | main.py:616-735 | no plan exactly when some file fails the gate; otherwise the concat list, timeline, chapter document and argument vector are those of the inputs |
| Pipeline.CreateM4b | main.py:545-771 | no files means failure with the registry untouched; an unsafe file means failure; otherwise the plan's settings, cover and artifacts follow from the inputs, the registry gains the two list files and the cover path as Pipeline.RegisterTemporaries states, and success is exit code 0 with a non-empty output |

## Left out

- Subprocesses, the filesystem and the clock are not modelled. Every `ffprobe`/`ffmpeg` outcome, existence test, size, directory listing and temporary path is an input value.
- Chapters.ChapterLength: a probe that cannot be started at all (`ffprobe` missing, so `subprocess.run` at `main.py:645-651` raises `OSError`) is not caught by the handler at `main.py:664`, which names only `CalledProcessError`, `TimeoutExpired` and `ValueError`. It reaches `main.py:764`, and `create_m4b` returns False. The probe result is an `Option<real>` duration, which cannot express this outcome, so the model always falls back to one second.
- Python's `json` and `csv` parsers are not modelled. Tags arrive as key/value pairs and index rows as already-split fields.
- Float parsing of durations and the float arithmetic of the timeline are not modelled. Durations are exact reals. Milliseconds are the floor of `t * 1000`, which is what `int()` does for the non-negative times that arise.
- `os.path.normpath` treats a leading `//` as special. This is not modelled: the model treats it like `/`.
- `str.lower` and `str.isalnum` are modelled on ASCII only: a non-ASCII character is left unchanged by `lower` and is not alphanumeric. Where the lowered string is only compared with ASCII constants (suffixes, codec names, `.m4b`) this changes nothing. The sort key and the tag keys can be non-ASCII; the lines below say what differs.
- Files.SortByLowerNameSorted: the order is by the ASCII-lowered name, which differs from Python's for non-ASCII names. Python sorts `à.mp3` before `Ä.mp3` (it lowers `Ä` to `ä`, U+00E4, after `à`, U+00E0); the model keeps `Ä` (U+00C4) and sorts it first.
- Files.GetAudioFiles: it inherits the sort order above, so non-ASCII names that differ only in case may come out in a different order than Python's.
- Metadata.CleanTags: a non-ASCII tag key keeps its case. Python would lower-case it. The keys looked up later (`album`, `title`, `artist`, `albumartist`, `genre`) are ASCII.
- Bitrate.GetSourceBitrateAndCodec: a codec name with non-ASCII letters or digits counts as not alphanumeric, so it is skipped where Python would accept it.
- The regex `\s` is written out as Python's `str.isspace` table.
- `validate_path_basic` only logs and never rejects, so it is not modelled. The suspicious-path warnings in `get_audio_files` and `validate_output_path` are left out for the same reason.
- Logging, printing, `argparse`, `check_dependencies`, `create_secure_temp`, `safe_makedirs` and the `main` flow around the modelled reorder are not modelled.
- The signal and `atexit` registration is concurrency and process control, so it is not modelled. Only the sequential list semantics of `TEMP_FILES` are kept.
- The concat-list reader leaves out three details of ffmpeg's parser: the leading-whitespace skip after the `file` keyword, the trimming of trailing whitespace in `av_get_token`, and `\r\n` pairing. The lines the program writes contain none of them after the keyword's single space.
- The chapter-document reader does not undo ffmetadata backslash escapes. Sanitised titles contain no `\`, and the other escaped characters (`=`, `;`, `#`) only matter for keys.
- Chapters.GetChapterName: the `except` branch that falls back to `Chapter {index+1}` on an unexpected exception is not modelled. No modelled step raises there.
- Sanitize.SanitizeFilenameBounded: it is stated only for extensions under 255 characters. Sanitize.SanitizeFilenameLongExtension shows that an extension of 256 or more characters makes the result longer than 255.
- Sanitize.SanitizeFilenameIdempotent: it is stated under the same extension condition.
- Artifacts.M4bSucceeded: it states one direction only; Pipeline.CreateM4b states the full equivalence.
- Artifacts.ConcatListReadsBack: it is stated only for paths without a line break and without `'`. A `'` is misread, as the finding below shows. A line break is not caught by the safety gate, and it splits the path into extra `file` lines, as Artifacts.LineBreakNameAddsDirective shows.
- Artifacts.ChapterDocument and Artifacts.FfmpegArgs: their properties are stated as the lemmas Artifacts.ChapterDocumentFrame, Artifacts.DocumentReadsBack, Artifacts.FfmpegArgsFrame and Artifacts.FfmpegInputs, not as their own postconditions.
- A cover deleted between extraction and encoding is not excluded. It leaves `-map_metadata 2` pointing past the last input, as Artifacts.MissingCoverIndexOutOfRange states. This is a race against the filesystem, not a logic error.

## Findings

| source | as written | input that shows it | evidently intended | confidence | as-written member | corrected member |
|---|---|---|---|---|---|---|
| main.py:625-626 | each `'` in a concat-list path becomes `'"'"'`. That is the POSIX shell idiom, but ffmpeg's concat reader does not treat `"` as a quote: the `'` closes the quoted run, the two `"` are read literally, and the next `'` reopens the run | the path `/a'b` is read back as `/a""b`, so ffmpeg looks for a file that does not exist | escape `'` as `'\''`, which ffmpeg reads back as `'` | high for the model of ffmpeg's quoting rules; not executed | Artifacts.ConcatListMisreadsApostrophe | Artifacts.CorrectedConcatListReadsBack |
