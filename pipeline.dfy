/**
 * `create_m4b` as one sequence of decisions: everything it learns from the
 * file system and from `ffprobe`/`ffmpeg` arrives as values, and what it would
 * write and run comes back as a plan.
 */
module Pipeline {
  import opened Wrappers
  import Files
  import Bitrate
  import Chapters
  import Artifacts
  import Registry

  /** Everything the run observes about one input file. */
  datatype AudioFile = AudioFile(
    entry: Files.Entry,              // name, existence, regular-file status, size
    absPath: string,                 // `str(audio_file.resolve())`
    metadata: map<string, string>,   // cleaned tags
    duration: Option<real>,          // probed duration, `None` when the probe failed
    probe: Bitrate.Probe,            // stream records for the bitrate analysis
    coverAttempt: Registry.Attempt)  // outcome of extracting cover art from it

  /** Everything else the run observes. */
  datatype Environment = Environment(
    cpuCount: nat,
    fileListPath: string,
    chapterListPath: string,
    coverTemp: Option<string>,       // `None` when the cover temporary could not be created
    coverRemoveFails: bool,
    coverExistsAtEncode: bool,
    exitCode: int,
    outputExists: bool,
    outputSize: int)

  /** What the run writes and runs. */
  datatype M4bPlan = M4bPlan(
    title: string,
    artist: string,
    genre: string,
    bitrate: nat,
    cover: Option<string>,
    concatList: string,
    chapters: seq<Chapters.Chapter>,
    chapterDocument: string,
    args: seq<string>)

  function Tracks(fs: seq<AudioFile>): (r: seq<Chapters.Track>)
    ensures |r| == |fs|
  {
    seq(|fs|, i requires 0 <= i < |fs| => Chapters.Track(fs[i].entry.name, fs[i].metadata, fs[i].duration))
  }

  function Entries(fs: seq<AudioFile>): (r: seq<Files.Entry>)
    ensures |r| == |fs|
  {
    seq(|fs|, i requires 0 <= i < |fs| => fs[i].entry)
  }

  function AbsPaths(fs: seq<AudioFile>): (r: seq<string>)
    ensures |r| == |fs|
  {
    seq(|fs|, i requires 0 <= i < |fs| => fs[i].absPath)
  }

  function Probes(fs: seq<AudioFile>): (r: seq<Bitrate.Probe>)
    ensures |r| == |fs|
  {
    seq(|fs|, i requires 0 <= i < |fs| => fs[i].probe)
  }

  function Attempts(fs: seq<AudioFile>): (r: seq<Registry.Attempt>)
    ensures |r| == |fs|
  {
    seq(|fs|, i requires 0 <= i < |fs| => fs[i].coverAttempt)
  }

  /** The artifacts of a run with the given settings, cover and files. */
  predicate IsPlanFor(p: M4bPlan, files: seq<AudioFile>, mapping: map<string, string>, env: Environment,
                      outputPath: string)
  {
    && p.concatList == Artifacts.ConcatList(AbsPaths(files))
    && |p.chapters| == |files|
    && Chapters.IsTimeline(p.chapters, Tracks(files), mapping)
    && p.chapterDocument == Artifacts.ChapterDocument(p.title, p.artist, p.genre, p.chapters)
    && p.args == Artifacts.FfmpegArgs(env.cpuCount, env.fileListPath, p.cover, env.coverExistsAtEncode,
                                      env.chapterListPath, p.bitrate, p.title, p.artist, p.genre, outputPath)
  }

  /**
   * The `try` block of `create_m4b` up to running ffmpeg: refuse the run if
   * any file fails the safety gate, otherwise write the concat list, build the
   * timeline, write the chapter document and assemble the command line.
   */
  method WriteArtifacts(files: seq<AudioFile>, outputPath: string, mapping: map<string, string>,
                        title: string, artist: string, genre: string, bitrate: nat, cover: Option<string>,
                        env: Environment)
    returns (plan: Option<M4bPlan>)
    ensures plan.None? <==> exists i :: 0 <= i < |files| && !Files.ValidateFileSafety(files[i].entry)
    ensures plan.Some? ==>
              && plan.value.title == title && plan.value.artist == artist && plan.value.genre == genre
              && plan.value.bitrate == bitrate && plan.value.cover == cover
              && IsPlanFor(plan.value, files, mapping, env, outputPath)
  {
    var concatList := Artifacts.WriteConcatList(Entries(files), AbsPaths(files));
    if concatList.None? {
      assert exists i :: 0 <= i < |files| && !Files.ValidateFileSafety(Entries(files)[i]);
      return None;
    }
    assert forall i :: 0 <= i < |files| ==> Files.ValidateFileSafety(files[i].entry) by {
      assert forall i :: 0 <= i < |files| ==> Entries(files)[i] == files[i].entry;
    }
    var chapters := Chapters.BuildTimeline(Tracks(files), mapping);
    var document := Artifacts.ChapterDocument(title, artist, genre, chapters);
    var args := Artifacts.FfmpegArgs(env.cpuCount, env.fileListPath, cover, env.coverExistsAtEncode,
                                     env.chapterListPath, bitrate, title, artist, genre, outputPath);
    plan := Some(M4bPlan(title, artist, genre, bitrate, cover, concatList.value, chapters, document, args));
  }

  /**
   * The opening of `create_m4b`: the book's title, artist and genre from the
   * first file's tags, and the target bitrate (16 in quick mode, otherwise
   * the ladder applied to the analysed sources).
   */
  method BookSettings(files: seq<AudioFile>, quick: bool, titleOverride: Option<string>,
                      inputDir: Option<string>, choice: Option<string>)
    returns (title: string, artist: string, genre: string, bitrate: nat)
    requires files != []
    ensures title == Chapters.ResolveBookTitle(titleOverride, files[0].metadata, inputDir, choice)
    ensures artist == Chapters.BookArtist(files[0].metadata)
    ensures genre == Chapters.BookGenre(files[0].metadata)
    ensures bitrate == Bitrate.TargetBitrate(quick, Probes(files))
  {
    var metadata := files[0].metadata;
    title := Chapters.ResolveBookTitle(titleOverride, metadata, inputDir, choice);
    artist := Chapters.BookArtist(metadata);
    genre := Chapters.BookGenre(metadata);
    if !quick {
      var sourceBitrate, sourceCodec := Bitrate.GetSourceBitrateAndCodec(Probes(files));
      bitrate := Bitrate.CalculateOptimalAacBitrate(sourceBitrate, sourceCodec);
    } else {
      bitrate := Bitrate.QuickBitrate;
    }
  }

  /** Cover extraction got a temporary path and some file yielded a picture into it. */
  predicate CoverFound(files: seq<AudioFile>, env: Environment) {
    env.coverTemp.Some? && exists i :: 0 <= i < |files| && Registry.YieldsCover(files[i].entry, files[i].coverAttempt)
  }

  /**
   * The temporaries of `create_m4b`: the file list and the chapter list are
   * registered, then cover extraction registers its own path and takes it
   * back when no picture came out, unless deleting it fails.
   */
  method RegisterTemporaries(reg: Registry.TempRegistry, files: seq<AudioFile>, env: Environment)
    returns (cover: Option<string>)
    modifies reg
    ensures cover.Some? <==> CoverFound(files, env)
    ensures cover.Some? ==> cover == env.coverTemp
    ensures env.coverTemp.None? ==> reg.files == old(reg.files) + [env.fileListPath, env.chapterListPath]
    ensures env.coverTemp.Some? && (CoverFound(files, env) || env.coverRemoveFails) ==>
              reg.files == old(reg.files) + [env.fileListPath, env.chapterListPath, env.coverTemp.value]
    ensures env.coverTemp.Some? && !CoverFound(files, env) && !env.coverRemoveFails ==>
              reg.files == Registry.RemoveFirst(old(reg.files) + [env.fileListPath, env.chapterListPath,
                                                                  env.coverTemp.value],
                                                env.coverTemp.value).value
  {
    reg.Register(env.fileListPath);
    reg.Register(env.chapterListPath);
    ghost var listed := reg.files;
    assert listed == old(reg.files) + [env.fileListPath, env.chapterListPath];
    cover := Registry.ExtractCoverArt(reg, env.coverTemp, Entries(files), Attempts(files), env.coverRemoveFails);
    CoverFoundOnEntries(files, env);
    if env.coverTemp.Some? {
      assert listed + [env.coverTemp.value]
             == old(reg.files) + [env.fileListPath, env.chapterListPath, env.coverTemp.value] by {
        AppendThree(old(reg.files), env.fileListPath, env.chapterListPath, env.coverTemp.value);
      }
    }
  }

  lemma CoverFoundOnEntries(files: seq<AudioFile>, env: Environment)
    ensures CoverFound(files, env) <==>
              env.coverTemp.Some? &&
              exists i :: 0 <= i < |files| && Registry.YieldsCover(Entries(files)[i], Attempts(files)[i])
  {
    assert forall i :: 0 <= i < |files| ==>
             Entries(files)[i] == files[i].entry && Attempts(files)[i] == files[i].coverAttempt;
  }

  lemma AppendThree(s: seq<string>, a: string, b: string, c: string)
    ensures s + [a, b] + [c] == s + [a, b, c]
  {
  }

  /**
   * `create_m4b`: no files means failure before anything happens; otherwise
   * the book title, artist, genre and target bitrate are settled, the two
   * list files and the cover temporary are registered, and the artifacts are
   * written. The run succeeds exactly when they were written and ffmpeg exits
   * 0 leaving a non-empty output.
   */
  method CreateM4b(reg: Registry.TempRegistry, files: seq<AudioFile>, outputPath: string,
                   mapping: map<string, string>, quick: bool, titleOverride: Option<string>,
                   inputDir: Option<string>, choice: Option<string>, env: Environment)
    returns (ok: bool, plan: Option<M4bPlan>)
    modifies reg
    ensures files == [] ==> reg.files == old(reg.files)
    ensures plan.None? <==> files == [] || exists i :: 0 <= i < |files| && !Files.ValidateFileSafety(files[i].entry)
    ensures ok <==> plan.Some? && Artifacts.M4bSucceeded(env.exitCode, env.outputExists, env.outputSize)
    ensures plan.Some? ==>
              var p := plan.value;
              && p.title == Chapters.ResolveBookTitle(titleOverride, files[0].metadata, inputDir, choice)
              && p.artist == Chapters.BookArtist(files[0].metadata)
              && p.genre == Chapters.BookGenre(files[0].metadata)
              && p.bitrate == Bitrate.TargetBitrate(quick, Probes(files))
              && (p.cover.Some? <==> CoverFound(files, env))
              && IsPlanFor(p, files, mapping, env, outputPath)
    ensures files != [] && env.coverTemp.None? ==>
              reg.files == old(reg.files) + [env.fileListPath, env.chapterListPath]
    ensures files != [] && env.coverTemp.Some? && (CoverFound(files, env) || env.coverRemoveFails) ==>
              reg.files == old(reg.files) + [env.fileListPath, env.chapterListPath, env.coverTemp.value]
    ensures files != [] && env.coverTemp.Some? && !CoverFound(files, env) && !env.coverRemoveFails ==>
              reg.files == Registry.RemoveFirst(old(reg.files) + [env.fileListPath, env.chapterListPath,
                                                                  env.coverTemp.value],
                                                env.coverTemp.value).value
  {
    if files == [] {
      return false, None;
    }
    var title, artist, genre, bitrate := BookSettings(files, quick, titleOverride, inputDir, choice);

    var cover := RegisterTemporaries(reg, files, env);

    plan := WriteArtifacts(files, outputPath, mapping, title, artist, genre, bitrate, cover, env);
    ok := plan.Some? && Artifacts.M4bSucceeded(env.exitCode, env.outputExists, env.outputSize);
  }
}
