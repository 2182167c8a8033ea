/**
 * The process-wide list of temporary files (`TEMP_FILES`), the cleanup that
 * empties it, and cover-art extraction, the one operation that both adds a
 * file to it and takes one back out.
 */
module Registry {
  import opened Wrappers
  import Files

  /** The position of the first occurrence of `x` in `s`. */
  function FirstIndex(s: seq<string>, x: string): (k: nat)
    requires x in s
    ensures k < |s| && s[k] == x && x !in s[..k]
  {
    if s[0] == x then 0
    else
      var k := 1 + FirstIndex(s[1..], x);
      assert s[..k] == [s[0]] + s[1..][..k - 1];
      k
  }

  /** `list.remove(x)`: drop the first occurrence, or fail when `x` is absent. */
  function RemoveFirst(s: seq<string>, x: string): (r: Option<seq<string>>)
    ensures r.None? <==> x !in s
    ensures r.Some? ==> r.value == s[..FirstIndex(s, x)] + s[FirstIndex(s, x) + 1..]
    ensures r.Some? ==> |r.value| == |s| - 1 && multiset(r.value) == multiset(s) - multiset{x}
  {
    if s == [] then None
    else if s[0] == x then
      DropHead(s, x);
      Some(s[1..])
    else
      match RemoveFirst(s[1..], x)
      case None => None
      case Some(t) =>
        DropLater(s, x, t);
        Some([s[0]] + t)
  }

  lemma DropHead(s: seq<string>, x: string)
    requires s != [] && s[0] == x
    ensures s[1..] == s[..FirstIndex(s, x)] + s[FirstIndex(s, x) + 1..]
    ensures multiset(s[1..]) == multiset(s) - multiset{x}
  {
    assert s == [s[0]] + s[1..];
    assert s[..0] + s[1..] == s[1..];
  }

  lemma DropLater(s: seq<string>, x: string, t: seq<string>)
    requires s != [] && s[0] != x && x in s[1..]
    requires t == s[1..][..FirstIndex(s[1..], x)] + s[1..][FirstIndex(s[1..], x) + 1..]
    requires |t| == |s| - 2 && multiset(t) == multiset(s[1..]) - multiset{x}
    ensures [s[0]] + t == s[..FirstIndex(s, x)] + s[FirstIndex(s, x) + 1..]
    ensures |[s[0]] + t| == |s| - 1 && multiset([s[0]] + t) == multiset(s) - multiset{x}
  {
    assert s == [s[0]] + s[1..];
    var j := FirstIndex(s[1..], x);
    assert FirstIndex(s, x) == j + 1;
    assert s[..j + 1] == [s[0]] + s[1..][..j];
    assert s[j + 2..] == s[1..][j + 1..];
  }

  /** Registering a path the list does not hold and then removing it gives the list back. */
  lemma RegisterThenRemove(s: seq<string>, x: string)
    requires x !in s
    ensures RemoveFirst(s + [x], x) == Some(s)
  {
    var u := s + [x];
    var k := FirstIndex(u, x);
    assert forall i :: 0 <= i < |s| ==> u[i] == s[i] != x;
    assert k == |s|;
    assert u[..k] == s && u[k + 1..] == [];
    var r := RemoveFirst(u, x);
    assert r.Some? && r.value == u[..k] + u[k + 1..];
    assert r.value == s;
  }

  /**
   * What `cleanup_temp_files` tries to delete, in order: each listed path that
   * is on disk when its turn comes. A deletion that fails (a path in
   * `failing`) leaves the file on disk.
   */
  function Attempted(fs: seq<string>, disk: set<string>, failing: set<string>): seq<string> {
    if fs == [] then []
    else if fs[0] in disk then [fs[0]] + Attempted(fs[1..], if fs[0] in failing then disk else disk - {fs[0]}, failing)
    else Attempted(fs[1..], disk, failing)
  }

  /** Which files are left on disk after the cleanup loop. */
  function DiskAfter(fs: seq<string>, disk: set<string>, failing: set<string>): set<string> {
    if fs == [] then disk
    else if fs[0] in disk && fs[0] !in failing then DiskAfter(fs[1..], disk - {fs[0]}, failing)
    else DiskAfter(fs[1..], disk, failing)
  }

  /** Every listed file whose deletion does not fail is gone; nothing else is touched. */
  lemma {:induction false} DiskAfterRemovesListed(fs: seq<string>, disk: set<string>, failing: set<string>)
    ensures DiskAfter(fs, disk, failing) == disk - (set p | p in fs && p !in failing)
  {
    if fs != [] {
      var d' := if fs[0] in disk && fs[0] !in failing then disk - {fs[0]} else disk;
      DiskAfterRemovesListed(fs[1..], d', failing);
      assert fs == [fs[0]] + fs[1..];
    }
  }

  /** `TEMP_FILES` together with the operations that grow and shrink it. */
  class TempRegistry {
    var files: seq<string>

    constructor ()
      ensures files == []
    {
      files := [];
    }

    /** `TEMP_FILES.append(p)`. */
    method Register(p: string)
      modifies this
      ensures files == old(files) + [p]
    {
      files := files + [p];
    }

    /** `TEMP_FILES.remove(p)`, with the `ValueError` of an absent path reported as `false`. */
    method Release(p: string) returns (removed: bool)
      modifies this
      ensures removed <==> p in old(files)
      ensures removed ==> files == RemoveFirst(old(files), p).value
      ensures !removed ==> files == old(files)
    {
      var r := RemoveFirst(files, p);
      if r.Some? {
        files := r.value;
        removed := true;
      } else {
        removed := false;
      }
    }

    /**
     * `cleanup_temp_files`: delete each listed path that exists, log and skip
     * a deletion that fails, then empty the list. `disk` is the set of paths
     * that exist beforehand; `remaining` those that exist afterwards.
     */
    method ReleaseAll(disk: set<string>, failing: set<string>) returns (deleted: seq<string>, remaining: set<string>)
      modifies this
      ensures files == []
      ensures deleted == Attempted(old(files), disk, failing)
      ensures remaining == DiskAfter(old(files), disk, failing)
      ensures remaining == disk - (set p | p in old(files) && p !in failing)
    {
      deleted := [];
      remaining := disk;
      var fs := files;
      for i := 0 to |fs|
        invariant deleted + Attempted(fs[i..], remaining, failing) == Attempted(fs, disk, failing)
        invariant DiskAfter(fs[i..], remaining, failing) == DiskAfter(fs, disk, failing)
      {
        assert fs[i..][1..] == fs[i + 1..];
        var p := fs[i];
        if p in remaining {
          deleted := deleted + [p];
          if p !in failing {
            remaining := remaining - {p};
          }
        }
      }
      DiskAfterRemovesListed(fs, disk, failing);
      files := [];
    }
  }

  /** What one `ffmpeg` extraction attempt left behind. */
  datatype Attempt = Attempt(exitCode: int, outputExists: bool, outputSize: int)

  /** A file yields the cover when it passes the safety gate and its extraction wrote a non-empty image. */
  predicate YieldsCover(e: Files.Entry, a: Attempt) {
    Files.ValidateFileSafety(e) && a.exitCode == 0 && a.outputExists && a.outputSize > 0
  }

  /**
   * `extract_cover_art`: register a fresh temporary path (`None` when creating
   * it failed), try the files in order and return the path at the first
   * success; otherwise delete the file and unregister it, unless the deletion
   * fails (`removeFails`), which skips the unregistering as well.
   */
  method ExtractCoverArt(reg: TempRegistry, coverTemp: Option<string>, files: seq<Files.Entry>,
                         attempts: seq<Attempt>, removeFails: bool) returns (cover: Option<string>)
    requires |attempts| == |files|
    modifies reg
    ensures cover.Some? <==> coverTemp.Some? && exists i :: 0 <= i < |files| && YieldsCover(files[i], attempts[i])
    ensures cover.Some? ==> cover == coverTemp && reg.files == old(reg.files) + [coverTemp.value]
    ensures coverTemp.None? ==> reg.files == old(reg.files)
    ensures coverTemp.Some? && cover.None? && removeFails ==> reg.files == old(reg.files) + [coverTemp.value]
    ensures coverTemp.Some? && cover.None? && !removeFails ==>
              reg.files == RemoveFirst(old(reg.files) + [coverTemp.value], coverTemp.value).value
  {
    if coverTemp.None? {
      return None;
    }
    var path := coverTemp.value;
    reg.Register(path);
    for i := 0 to |files|
      invariant reg.files == old(reg.files) + [path]
      invariant forall j :: 0 <= j < i ==> !YieldsCover(files[j], attempts[j])
    {
      if !Files.ValidateFileSafety(files[i]) {
        continue;
      }
      var a := attempts[i];
      if a.exitCode == 0 && a.outputExists {
        if a.outputSize > 0 {
          return Some(path);
        }
      }
    }
    if !removeFails {
      var _ := reg.Release(path);
    }
    return None;
  }

  /**
   * A failed extraction with a fresh temporary path leaves the registry as
   * it found it.
   */
  lemma FailedExtractionRestoresRegistry(before: seq<string>, path: string)
    requires path !in before
    ensures RemoveFirst(before + [path], path).value == before
  {
    RegisterThenRemove(before, path);
  }
}
