/**
 * The file gate and directory discovery: `validate_file_safety` with the
 * filesystem's answers as fields, pathlib's suffix and stem, and the
 * filtering and ordering loop of `get_audio_files`.
 */
module Files {
  import opened Wrappers
  import opened Text
  import Paths

  const MaxFilesCount := 1000
  const MaxFileSize := 2 * 1024 * 1024 * 1024
  const AudioExtensions: set<string> := {".mp3", ".m4a", ".wav", ".flac", ".aac", ".ogg", ".wma"}

  /** One directory entry as the filesystem reports it. */
  datatype Entry = Entry(name: string, present: bool, isFile: bool, size: int)

  datatype DiscoveryError = DirectoryNotFound | NotADirectory | TooManyFiles

  predicate IsSuspiciousChar(c: char) {
    c == '/' || c == '\\' || c == '|' || c == ';' || c == '&' || c == '$' || c == '`'
  }

  predicate HasDoubleDot(s: string) {
    exists i :: 0 <= i < |s| - 1 && s[i] == '.' && s[i + 1] == '.'
  }

  predicate NoSuspiciousChar(s: string) {
    forall i :: 0 <= i < |s| ==> !IsSuspiciousChar(s[i])
  }

  /** The name test of `validate_file_safety`: no `..` and none of `/ \ | ; & $` and backquote. */
  predicate SafeName(s: string) {
    !HasDoubleDot(s) && NoSuspiciousChar(s)
  }

  /** `validate_file_safety`: a present regular file of at most 2 GiB whose name passes the name test. */
  function ValidateFileSafety(e: Entry): (ok: bool)
    ensures ok ==> e.present && e.isFile && e.size <= MaxFileSize
    ensures ok ==> forall i :: 0 <= i < |e.name| ==> e.name[i] != '/'
    ensures ok <==> && e.present && e.isFile && e.size <= MaxFileSize
                    && (forall i :: 0 <= i < |e.name| ==> e.name[i] !in "/\\|;&$`")
                    && (forall i :: 0 <= i < |e.name| - 1 ==> !(e.name[i] == '.' && e.name[i + 1] == '.'))
  {
    if !e.present || !e.isFile then false
    else if e.size > MaxFileSize then false
    else SafeName(e.name)
  }

  /**
   * A file that passes the gate, joined below an absolute non-root base,
   * lands exactly one level below it: the name test rules out traversal.
   */
  lemma SafeFileStaysInBase(cwd: string, base: string, e: Entry)
    requires ValidateFileSafety(e) && e.name != [] && e.name != "."
    requires StartsWith(base, "/") && Paths.Segments(base) != []
    requires |Paths.Render(Paths.Segments(base) + [e.name])| <= Paths.MaxPathLength
    ensures Paths.SafePathJoin(cwd, base, [e.name]) == Success(Paths.Render(Paths.Segments(base) + [e.name]))
  {
    assert |e.name| >= 2 ==> !(e.name[0] == '.' && e.name[1] == '.');
    assert Paths.AllNames([e.name]) by {
      assert Paths.IsName(e.name);
    }
    Paths.SafePathJoinNames(cwd, base, [e.name]);
  }

  /** A name with `..` anywhere is refused even when it would stay inside the directory. */
  lemma DoubleDotRefused(e: Entry, i: int)
    requires 0 <= i < |e.name| - 1 && e.name[i] == '.' && e.name[i + 1] == '.'
    ensures !ValidateFileSafety(e)
  {
  }

  // ---------------------------------------------------------------------------
  // pathlib suffix and stem
  // ---------------------------------------------------------------------------

  /** `PurePath.suffix`: from the last dot, when that dot is neither first nor last. */
  function Suffix(name: string): (r: string)
    ensures r == [] || (r[0] == '.' && |r| >= 2 && EndsWith(name, r))
    ensures forall i :: 0 < i < |r| ==> r[i] != '.'
  {
    var i := RFind(name, '.');
    if 0 < i < |name| - 1 then name[i..] else []
  }

  /** `PurePath.stem`: the name without its suffix. */
  function Stem(name: string): (r: string)
    ensures r + Suffix(name) == name
  {
    var i := RFind(name, '.');
    if 0 < i < |name| - 1 then name[..i] else name
  }

  /** Hidden files such as `.mp3` have no suffix, so they are never taken as audio. */
  lemma HiddenNameHasNoSuffix(name: string)
    requires name != [] && name[0] == '.'
    requires forall j :: 0 < j < |name| ==> name[j] != '.'
    ensures Suffix(name) == [] && Stem(name) == name
  {
  }

  /** Whether an entry is taken as an audio file. */
  predicate IsAudio(e: Entry) {
    e.isFile && Lower(Suffix(e.name)) in AudioExtensions && ValidateFileSafety(e)
  }

  /** The audio entries of a listing, in listing order. */
  function AudioEntries(es: seq<Entry>): (r: seq<Entry>)
    ensures forall e :: e in r <==> e in es && IsAudio(e)
    ensures |r| <= |es|
  {
    if es == [] then []
    else AudioEntries(es[..|es| - 1]) + (if IsAudio(es[|es| - 1]) then [es[|es| - 1]] else [])
  }

  lemma {:induction false} AudioEntriesCount(es: seq<Entry>, e: Entry)
    ensures multiset(AudioEntries(es))[e] == if IsAudio(e) then multiset(es)[e] else 0
  {
    if es != [] {
      AudioEntriesCount(es[..|es| - 1], e);
      assert es == es[..|es| - 1] + [es[|es| - 1]];
    }
  }

  // ---------------------------------------------------------------------------
  // Ordering by lower-cased name
  // ---------------------------------------------------------------------------

  /** Python's string `<=`: code-point lexicographic order. */
  predicate LexLe(a: string, b: string)
    decreases |a|
  {
    a == [] || (b != [] && (a[0] < b[0] || (a[0] == b[0] && LexLe(a[1..], b[1..]))))
  }

  lemma {:induction false} LexLeTotal(a: string, b: string)
    ensures LexLe(a, b) || LexLe(b, a)
    decreases |a|
  {
    if a != [] && b != [] && a[0] == b[0] {
      LexLeTotal(a[1..], b[1..]);
    }
  }

  lemma {:induction false} LexLeTrans(a: string, b: string, c: string)
    requires LexLe(a, b) && LexLe(b, c)
    ensures LexLe(a, c)
    decreases |a|
  {
    if a != [] && a[0] == b[0] && b[0] == c[0] {
      LexLeTrans(a[1..], b[1..], c[1..]);
    }
  }

  function Key(e: Entry): string {
    Lower(e.name)
  }

  predicate SortedByKey(s: seq<Entry>) {
    forall i :: 0 <= i < |s| - 1 ==> LexLe(Key(s[i]), Key(s[i + 1]))
  }

  /** Insert before the first entry whose key is not smaller, which keeps equal keys in input order. */
  function Insert(x: Entry, s: seq<Entry>): (r: seq<Entry>)
    ensures |r| == |s| + 1
    ensures multiset(r) == multiset(s) + multiset{x}
    ensures r[0] == x || (s != [] && r[0] == s[0])
  {
    if s == [] then [x]
    else if LexLe(Key(x), Key(s[0])) then [x] + s
    else
      assert s == [s[0]] + s[1..];
      [s[0]] + Insert(x, s[1..])
  }

  lemma {:induction false} InsertSorted(x: Entry, s: seq<Entry>)
    requires SortedByKey(s)
    ensures SortedByKey(Insert(x, s))
    decreases |s|
  {
    if s != [] && !LexLe(Key(x), Key(s[0])) {
      LexLeTotal(Key(x), Key(s[0]));
      InsertSorted(x, s[1..]);
      var t := Insert(x, s[1..]);
      assert forall i :: 0 <= i < |t| - 1 ==> LexLe(Key(t[i]), Key(t[i + 1]));
      assert LexLe(Key(s[0]), Key(t[0])) by {
        if |s| > 1 && t[0] == s[1] {
          assert LexLe(Key(s[0]), Key(s[1]));
        }
      }
      assert Insert(x, s) == [s[0]] + t;
    }
  }

  /** `sorted(files, key=lambda x: x.name.lower())`. */
  function SortByLowerName(s: seq<Entry>): (r: seq<Entry>)
    ensures multiset(r) == multiset(s)
    ensures |r| == |s|
  {
    if s == [] then []
    else
      assert s == [s[0]] + s[1..];
      Insert(s[0], SortByLowerName(s[1..]))
  }

  /** The ordering is by lower-cased name: each entry's key is at most the next one's. */
  lemma {:induction false} SortByLowerNameSorted(s: seq<Entry>)
    ensures SortedByKey(SortByLowerName(s))
  {
    if s != [] {
      SortByLowerNameSorted(s[1..]);
      InsertSorted(s[0], SortByLowerName(s[1..]));
    }
  }

  /** The entries of `s` whose lower-cased name is `k`, in their order in `s`. */
  function WithKey(s: seq<Entry>, k: string): (r: seq<Entry>)
    ensures forall i :: 0 <= i < |r| ==> Key(r[i]) == k && r[i] in s
  {
    if s == [] then []
    else (if Key(s[0]) == k then [s[0]] else []) + WithKey(s[1..], k)
  }

  lemma WithKeyCons(e: Entry, rest: seq<Entry>, k: string)
    ensures WithKey([e] + rest, k) == (if Key(e) == k then [e] else []) + WithKey(rest, k)
  {
    assert ([e] + rest)[0] == e && ([e] + rest)[1..] == rest;
  }

  lemma {:induction false} InsertWithKey(x: Entry, s: seq<Entry>, k: string)
    ensures WithKey(Insert(x, s), k) == (if Key(x) == k then [x] else []) + WithKey(s, k)
    decreases |s|
  {
    if s == [] {
      WithKeyCons(x, [], k);
    } else if LexLe(Key(x), Key(s[0])) {
      WithKeyCons(x, s, k);
    } else {
      InsertWithKey(x, s[1..], k);
      WithKeyCons(s[0], Insert(x, s[1..]), k);
      WithKeyCons(s[0], s[1..], k);
      assert [s[0]] + s[1..] == s;
      if Key(x) == k {
        LexLeTotal(k, k);
        assert Key(s[0]) != k;
      }
    }
  }

  /**
   * The sort is stable, as Python's `sorted` is: entries whose lower-cased
   * names are equal (`A.mp3` and `a.mp3`) keep their listing order.
   */
  lemma {:induction false} SortByLowerNameStable(s: seq<Entry>, k: string)
    ensures WithKey(SortByLowerName(s), k) == WithKey(s, k)
  {
    if s != [] {
      SortByLowerNameStable(s[1..], k);
      InsertWithKey(s[0], SortByLowerName(s[1..]), k);
    }
  }

  // ---------------------------------------------------------------------------
  // get_audio_files
  // ---------------------------------------------------------------------------

  /**
   * `get_audio_files` over a directory listing: refuse a missing path, a
   * non-directory and more than 1000 entries of any kind; keep the audio
   * entries and order them by lower-cased name.
   */
  method GetAudioFiles(dirExists: bool, isDir: bool, entries: seq<Entry>) returns (r: Result<seq<Entry>, DiscoveryError>)
    ensures !dirExists ==> r == Failure(DirectoryNotFound)
    ensures dirExists && !isDir ==> r == Failure(NotADirectory)
    ensures dirExists && isDir && |entries| > MaxFilesCount ==> r == Failure(TooManyFiles)
    ensures dirExists && isDir && |entries| <= MaxFilesCount ==> r.Success?
    ensures r.Success? ==> r.value == SortByLowerName(AudioEntries(entries))
    ensures r.Success? ==> SortedByKey(r.value) && multiset(r.value) == multiset(AudioEntries(entries))
  {
    if !dirExists {
      return Failure(DirectoryNotFound);
    }
    if !isDir {
      return Failure(NotADirectory);
    }
    var audio: seq<Entry> := [];
    var fileCount := 0;
    for i := 0 to |entries|
      invariant fileCount == i <= MaxFilesCount
      invariant audio == AudioEntries(entries[..i])
    {
      fileCount := fileCount + 1;
      if fileCount > MaxFilesCount {
        return Failure(TooManyFiles);
      }
      var e := entries[i];
      if e.isFile && Lower(Suffix(e.name)) in AudioExtensions && ValidateFileSafety(e) {
        audio := audio + [e];
      }
      assert entries[..i + 1][..i] == entries[..i];
    }
    assert entries[..|entries|] == entries;
    SortByLowerNameSorted(audio);
    r := Success(SortByLowerName(audio));
  }

  /** Exactly the audio entries of the listing come back, each as often as listed. */
  lemma DiscoveryKeepsAudio(entries: seq<Entry>, e: Entry)
    ensures multiset(SortByLowerName(AudioEntries(entries)))[e] == if IsAudio(e) then multiset(entries)[e] else 0
  {
    AudioEntriesCount(entries, e);
  }
}
