/**
 * The chapter index: the row loop of `parse_index_file` over already-split
 * TSV rows, and the reorder merge that puts indexed files first.
 */
module ChapterIndex {
  import opened Wrappers
  import opened Text
  import Sanitize
  import Files

  const MaxIndexSize := 10 * 1024 * 1024
  const MaxIndexLines := 10000

  datatype IndexError = IndexNotFound | IndexNotAFile | IndexTooLarge | TooManyLines | EmptyFilename

  /** The chapter mapping and the file order read from the index. */
  datatype Index = Index(mapping: map<string, string>, order: seq<string>)

  /** A row with a file field and a chapter field; shorter rows are ignored. */
  predicate IsEntryRow(row: seq<string>) {
    |row| >= 2
  }

  /** A row whose file field is blank: `sanitize_filename` raises on it and the parse aborts. */
  predicate BadRow(row: seq<string>) {
    |row| >= 2 && Strip(row[0]) == []
  }

  /** One row of the loop at main.py lines 296-309. */
  function RowStep(d: Index, row: seq<string>): Result<Index, IndexError> {
    if |row| < 2 then Success(d)
    else
      match Sanitize.SanitizeFilename(Strip(row[0]))
      case Failure(_) => Failure(EmptyFilename)
      case Success(f) =>
        Success(Index(d.mapping[f := Sanitize.SanitizeChapterName(Strip(row[1]))], d.order + [f]))
  }

  /** The row loop over a whole file: the 10001st row aborts, as does a blank file field. */
  function ParseRows(rows: seq<seq<string>>): Result<Index, IndexError>
    decreases |rows|
  {
    if rows == [] then Success(Index(map[], []))
    else
      match ParseRows(rows[..|rows| - 1])
      case Failure(e) => Failure(e)
      case Success(d) =>
        if |rows| > MaxIndexLines then Failure(TooManyLines) else RowStep(d, rows[|rows| - 1])
  }

  /**
   * `parse_index_file`: check the file's presence, kind and size (at most
   * 10 MiB), then read the rows, later rows overwriting earlier mappings.
   */
  method ParseIndexFile(present: bool, isFile: bool, size: int, rows: seq<seq<string>>)
    returns (r: Result<Index, IndexError>)
    ensures !present ==> r == Failure(IndexNotFound)
    ensures present && !isFile ==> r == Failure(IndexNotAFile)
    ensures present && isFile && size > MaxIndexSize ==> r == Failure(IndexTooLarge)
    ensures present && isFile && size <= MaxIndexSize ==> r == ParseRows(rows)
  {
    if !present {
      return Failure(IndexNotFound);
    }
    if !isFile {
      return Failure(IndexNotAFile);
    }
    if size > MaxIndexSize {
      return Failure(IndexTooLarge);
    }
    var mapping: map<string, string> := map[];
    var order: seq<string> := [];
    var lineCount := 0;
    for i := 0 to |rows|
      invariant lineCount == i
      invariant ParseRows(rows[..i]) == Success(Index(mapping, order))
    {
      ParseRowsStep(rows, i, Index(mapping, order));
      lineCount := lineCount + 1;
      if lineCount > MaxIndexLines {
        FailureSticks(rows, i + 1);
        return Failure(TooManyLines);
      }
      var row := rows[i];
      if |row| >= 2 {
        var filename := Sanitize.SanitizeFilename(Strip(row[0]));
        if filename.Failure? {
          FailureSticks(rows, i + 1);
          return Failure(EmptyFilename);
        }
        var chapterName := Sanitize.SanitizeChapterName(Strip(row[1]));
        // the source's `if filename and chapter_name` test can never fail
        assert filename.value != [] && chapterName != [];
        mapping := mapping[filename.value := chapterName];
        order := order + [filename.value];
      }
    }
    assert rows[..|rows|] == rows;
    r := Success(Index(mapping, order));
  }

  /** One more row: the 10001st aborts, any other is handled by `RowStep`. */
  lemma ParseRowsStep(rows: seq<seq<string>>, i: nat, d: Index)
    requires i < |rows| && ParseRows(rows[..i]) == Success(d)
    ensures ParseRows(rows[..i + 1]) == if i + 1 > MaxIndexLines then Failure(TooManyLines) else RowStep(d, rows[i])
  {
    assert rows[..i + 1][..i] == rows[..i];
  }

  /** Once a prefix of the rows fails, the whole parse fails the same way. */
  lemma {:induction false} FailureSticks(rows: seq<seq<string>>, n: nat)
    requires n <= |rows| && ParseRows(rows[..n]).Failure?
    ensures ParseRows(rows) == ParseRows(rows[..n])
    decreases |rows| - n
  {
    if n < |rows| {
      var init := rows[..|rows| - 1];
      assert init[..n] == rows[..n];
      FailureSticks(init, n);
    } else {
      assert rows[..n] == rows;
    }
  }

  /** The parse fails exactly when there are over 10000 rows or some row has a blank file field. */
  lemma {:induction false} ParseRowsFailure(rows: seq<seq<string>>)
    ensures ParseRows(rows).Failure?
            <==> |rows| > MaxIndexLines || exists i :: 0 <= i < |rows| && BadRow(rows[i])
    decreases |rows|
  {
    if rows != [] {
      var init := rows[..|rows| - 1];
      ParseRowsFailure(init);
      assert forall i :: 0 <= i < |init| ==> init[i] == rows[i];
      var last := rows[|rows| - 1];
      if IsEntryRow(last) {
        assert Sanitize.SanitizeFilename(Strip(last[0])).Failure? <==> BadRow(last);
      }
    }
  }

  /** The rows that carry a mapping, in file order. */
  function EntryRows(rows: seq<seq<string>>): (r: seq<seq<string>>)
    ensures forall k :: 0 <= k < |r| ==> IsEntryRow(r[k])
  {
    if rows == [] then []
    else EntryRows(rows[..|rows| - 1]) + (if IsEntryRow(rows[|rows| - 1]) then [rows[|rows| - 1]] else [])
  }

  /** The chapter title a mapping row gives. */
  function RowChapter(row: seq<string>): string
    requires IsEntryRow(row)
  {
    Sanitize.SanitizeChapterName(Strip(row[1]))
  }

  /**
   * After a successful parse the order lists the sanitised file field of every
   * mapping row, in row order and with duplicates kept.
   */
  lemma {:induction false} ParseRowsOrder(rows: seq<seq<string>>)
    requires ParseRows(rows).Success?
    ensures var d := ParseRows(rows).value;
            var es := EntryRows(rows);
            && |d.order| == |es|
            && forall k :: 0 <= k < |es| ==> Sanitize.SanitizeFilename(Strip(es[k][0])) == Success(d.order[k])
    decreases |rows|
  {
    if rows != [] {
      var init := rows[..|rows| - 1];
      var last := rows[|rows| - 1];
      assert ParseRows(init).Success?;
      ParseRowsOrder(init);
      var d0 := ParseRows(init).value;
      var es0 := EntryRows(init);
      if IsEntryRow(last) {
        var f := Sanitize.SanitizeFilename(Strip(last[0])).value;
        var es := es0 + [last];
        var order := d0.order + [f];
        assert EntryRows(rows) == es;
        assert ParseRows(rows).value.order == order;
        OrderSnoc(es0, d0.order, last, f);
      } else {
        assert EntryRows(rows) == es0;
        assert ParseRows(rows).value == d0;
      }
    }
  }

  /** Appending an entry row and the name it yields keeps each row paired with its name. */
  lemma OrderSnoc(es0: seq<seq<string>>, order0: seq<string>, last: seq<string>, f: string)
    requires |order0| == |es0| && IsEntryRow(last)
    requires forall k :: 0 <= k < |es0| ==>
               IsEntryRow(es0[k]) && Sanitize.SanitizeFilename(Strip(es0[k][0])) == Success(order0[k])
    requires Sanitize.SanitizeFilename(Strip(last[0])) == Success(f)
    ensures var es, order := es0 + [last], order0 + [f];
            forall k :: 0 <= k < |es| ==>
              IsEntryRow(es[k]) && Sanitize.SanitizeFilename(Strip(es[k][0])) == Success(order[k])
  {
    var es, order := es0 + [last], order0 + [f];
    forall k | 0 <= k < |es|
      ensures IsEntryRow(es[k]) && Sanitize.SanitizeFilename(Strip(es[k][0])) == Success(order[k])
    {
      if k < |es0| {
        assert es[k] == es0[k] && order[k] == order0[k];
      }
    }
  }

  /** The mapping and order of `d` as the rows `es` leave them: last mapping row wins. */
  ghost predicate LastWins(d: Index, es: seq<seq<string>>) {
    && (forall f :: f in d.mapping <==> f in d.order)
    && (forall f :: f in d.mapping ==>
          exists k :: 0 <= k < |es| && LastNamed(d.order, f, k) && IsEntryRow(es[k]) && d.mapping[f] == RowChapter(es[k]))
  }

  lemma {:induction false} OrderLength(rows: seq<seq<string>>)
    requires ParseRows(rows).Success?
    ensures |ParseRows(rows).value.order| == |EntryRows(rows)|
    decreases |rows|
  {
    if rows != [] {
      OrderLength(rows[..|rows| - 1]);
    }
  }

  lemma LastNamedSnoc(s: seq<string>, f: string, g: string, k: int)
    requires LastNamed(s, g, k) && g != f
    ensures LastNamed(s + [f], g, k)
  {
  }

  /** One more mapping row keeps the last-row-wins relation. */
  lemma LastWinsStep(d0: Index, es0: seq<seq<string>>, last: seq<string>, f: string)
    requires IsEntryRow(last) && |d0.order| == |es0| && LastWins(d0, es0)
    ensures LastWins(Index(d0.mapping[f := RowChapter(last)], d0.order + [f]), es0 + [last])
  {
    var d := Index(d0.mapping[f := RowChapter(last)], d0.order + [f]);
    var es := es0 + [last];
    forall g | g in d.mapping
      ensures exists k :: 0 <= k < |es| && LastNamed(d.order, g, k) && IsEntryRow(es[k]) && d.mapping[g] == RowChapter(es[k])
    {
      if g == f {
        assert LastNamed(d.order, g, |es| - 1) && es[|es| - 1] == last;
      } else {
        var k :| 0 <= k < |es0| && LastNamed(d0.order, g, k) && IsEntryRow(es0[k]) && d0.mapping[g] == RowChapter(es0[k]);
        LastNamedSnoc(d0.order, f, g, k);
        assert es[k] == es0[k];
      }
    }
  }

  /**
   * The mapping holds exactly the names of the order, each with the title of
   * the last mapping row that named it.
   */
  lemma {:induction false} ParseRowsLastWins(rows: seq<seq<string>>)
    requires ParseRows(rows).Success?
    ensures var d := ParseRows(rows).value;
            var es := EntryRows(rows);
            && (forall f :: f in d.mapping <==> f in d.order)
            && (forall f :: f in d.mapping ==>
                  exists k :: 0 <= k < |es| && LastNamed(d.order, f, k) && d.mapping[f] == RowChapter(es[k]))
    decreases |rows|
  {
    ParseRowsInvariant(rows);
  }

  lemma {:induction false} ParseRowsInvariant(rows: seq<seq<string>>)
    requires ParseRows(rows).Success?
    ensures LastWins(ParseRows(rows).value, EntryRows(rows))
    decreases |rows|
  {
    if rows != [] {
      var init := rows[..|rows| - 1];
      var last := rows[|rows| - 1];
      assert ParseRows(init).Success?;
      ParseRowsInvariant(init);
      var d0 := ParseRows(init).value;
      var es0 := EntryRows(init);
      if IsEntryRow(last) {
        OrderLength(init);
        var f := Sanitize.SanitizeFilename(Strip(last[0])).value;
        assert EntryRows(rows) == es0 + [last];
        assert ParseRows(rows).value == Index(d0.mapping[f := RowChapter(last)], d0.order + [f]);
        LastWinsStep(d0, es0, last, f);
      } else {
        assert EntryRows(rows) == es0;
        assert ParseRows(rows).value == d0;
      }
    }
  }

  /** `k` is the last position of `f` in `s`. */
  predicate LastNamed(s: seq<string>, f: string, k: int) {
    0 <= k < |s| && s[k] == f && forall j :: k < j < |s| ==> s[j] != f
  }

  // ---------------------------------------------------------------------------
  // The reorder merge
  // ---------------------------------------------------------------------------

  /** `next((f for f in audio_files if f.name == filename), None)`. */
  function FirstNamed(files: seq<Files.Entry>, n: string): (r: Option<Files.Entry>)
    ensures r.None? <==> forall i :: 0 <= i < |files| ==> files[i].name != n
    ensures r.Some? ==> exists i :: 0 <= i < |files| && files[i] == r.value && r.value.name == n
                                    && forall j :: 0 <= j < i ==> files[j].name != n
  {
    if files == [] then None
    else if files[0].name == n then Some(files[0])
    else
      var r := FirstNamed(files[1..], n);
      if r.Some? then
        ghost var i :| 0 <= i < |files[1..]| && files[1..][i] == r.value && r.value.name == n
                       && forall j :: 0 <= j < i ==> files[1..][j].name != n;
        assert files[i + 1] == r.value;
        r
      else r
  }

  /** The first loop: one file per index name that names a file, in index order. */
  function Matched(files: seq<Files.Entry>, order: seq<string>): (r: seq<Files.Entry>)
    ensures forall k :: 0 <= k < |r| ==> r[k] in files
    ensures |r| <= |order|
  {
    if order == [] then []
    else
      var m := FirstNamed(files, order[|order| - 1]);
      Matched(files, order[..|order| - 1]) + (if m.Some? then [m.value] else [])
  }

  /** The second loop: append each file not yet present, in listing order. */
  function AddMissing(acc: seq<Files.Entry>, fs: seq<Files.Entry>): (r: seq<Files.Entry>)
    ensures |acc| <= |r| && r[..|acc|] == acc
    ensures forall e :: e in r <==> e in acc || e in fs
  {
    if fs == [] then acc
    else
      var a := AddMissing(acc, fs[..|fs| - 1]);
      assert forall e :: e in fs <==> e in fs[..|fs| - 1] || e == fs[|fs| - 1];
      if fs[|fs| - 1] in a then a else a + [fs[|fs| - 1]]
  }

  /** The merge at main.py lines 898-911. */
  method Reorder(files: seq<Files.Entry>, order: seq<string>) returns (ordered: seq<Files.Entry>)
    ensures ordered == AddMissing(Matched(files, order), files)
    ensures forall e :: e in ordered <==> e in files
    ensures ordered[..|Matched(files, order)|] == Matched(files, order)
  {
    ordered := [];
    for i := 0 to |order|
      invariant ordered == Matched(files, order[..i])
    {
      assert order[..i + 1][..i] == order[..i];
      var matching := FirstNamed(files, order[i]);
      if matching.Some? {
        ordered := ordered + [matching.value];
      }
    }
    assert order[..|order|] == order;
    ghost var matched := ordered;
    for i := 0 to |files|
      invariant ordered == AddMissing(matched, files[..i])
    {
      assert files[..i + 1][..i] == files[..i];
      if files[i] !in ordered {
        ordered := ordered + [files[i]];
      }
    }
    assert files[..|files|] == files;
  }

  predicate HasFileNamed(files: seq<Files.Entry>, n: string) {
    exists i :: 0 <= i < |files| && files[i].name == n
  }

  /** When every index name names a file, the merge begins with those files in index order. */
  lemma {:induction false} MatchedFollowsIndex(files: seq<Files.Entry>, order: seq<string>)
    requires forall k :: 0 <= k < |order| ==> HasFileNamed(files, order[k])
    ensures |Matched(files, order)| == |order|
    ensures forall k :: 0 <= k < |order| ==> Matched(files, order)[k].name == order[k]
  {
    if order != [] {
      assert forall k :: 0 <= k < |order| - 1 ==> order[..|order| - 1][k] == order[k];
      assert HasFileNamed(files, order[|order| - 1]);
      MatchedFollowsIndex(files, order[..|order| - 1]);
      var n := order[|order| - 1];
      assert FirstNamed(files, n).Some?;
    }
  }

  /** The index names that name some file, in index order. */
  function KnownNames(files: seq<Files.Entry>, order: seq<string>): (r: seq<string>)
    ensures |r| <= |order|
    ensures forall n :: n in r <==> n in order && HasFileNamed(files, n)
  {
    if order == [] then []
    else
      var init, n := order[..|order| - 1], order[|order| - 1];
      assert forall x :: x in order <==> x in init || x == n;
      KnownNames(files, init) + (if HasFileNamed(files, n) then [n] else [])
  }

  /**
   * Whatever the index holds, the first loop skips the names that name no
   * file and, for each other name in index order, takes the first file so named.
   */
  lemma {:induction false} MatchedKnownNames(files: seq<Files.Entry>, order: seq<string>)
    ensures |Matched(files, order)| == |KnownNames(files, order)|
    ensures forall k :: 0 <= k < |KnownNames(files, order)| ==>
              FirstNamed(files, KnownNames(files, order)[k]) == Some(Matched(files, order)[k])
  {
    if order != [] {
      var init, n := order[..|order| - 1], order[|order| - 1];
      MatchedKnownNames(files, init);
      var m := FirstNamed(files, n);
      assert m.Some? <==> HasFileNamed(files, n);
      var known, matched := KnownNames(files, init), Matched(files, init);
      if m.Some? {
        assert KnownNames(files, order) == known + [n];
        assert Matched(files, order) == matched + [m.value];
      } else {
        assert KnownNames(files, order) == known;
        assert Matched(files, order) == matched;
      }
    }
  }

  predicate DistinctEntries(s: seq<Files.Entry>) {
    forall i, j :: 0 <= i < j < |s| ==> s[i] != s[j]
  }

  predicate DistinctNames(s: seq<string>) {
    forall i, j :: 0 <= i < j < |s| ==> s[i] != s[j]
  }

  /** The listing entries not already placed, in listing order. */
  function Unplaced(fs: seq<Files.Entry>, placed: seq<Files.Entry>): seq<Files.Entry> {
    if fs == [] then []
    else Unplaced(fs[..|fs| - 1], placed) + (if fs[|fs| - 1] in placed then [] else [fs[|fs| - 1]])
  }

  lemma {:induction false} UnplacedMembers(fs: seq<Files.Entry>, placed: seq<Files.Entry>)
    ensures forall e :: e in Unplaced(fs, placed) <==> e in fs && e !in placed
  {
    if fs != [] {
      UnplacedMembers(fs[..|fs| - 1], placed);
      assert forall e :: e in fs <==> e in fs[..|fs| - 1] || e == fs[|fs| - 1];
    }
  }

  /** For a listing without repeats, the unindexed files follow in their listing order. */
  lemma {:induction false} AddMissingDistinct(acc: seq<Files.Entry>, fs: seq<Files.Entry>)
    requires DistinctEntries(fs)
    ensures AddMissing(acc, fs) == acc + Unplaced(fs, acc)
  {
    if fs != [] {
      var init := fs[..|fs| - 1];
      var x := fs[|fs| - 1];
      AddMissingDistinct(acc, init);
      UnplacedMembers(init, acc);
      assert x !in init;
      var u := Unplaced(init, acc);
      assert x in acc + u <==> x in acc;
      if x !in acc {
        assert acc + u + [x] == acc + (u + [x]);
      }
    }
  }

  lemma {:induction false} MatchedDistinct(files: seq<Files.Entry>, order: seq<string>)
    requires DistinctNames(order)
    ensures DistinctEntries(Matched(files, order))
    ensures forall k :: 0 <= k < |Matched(files, order)| ==> Matched(files, order)[k].name in order
  {
    if order != [] {
      var init := order[..|order| - 1];
      MatchedDistinct(files, init);
      var m := FirstNamed(files, order[|order| - 1]);
      if m.Some? {
        var prev := Matched(files, init);
        forall k | 0 <= k < |prev|
          ensures prev[k] != m.value
        {
          assert prev[k].name in init;
        }
      }
    }
  }

  lemma {:induction false} DistinctCount(s: seq<Files.Entry>, e: Files.Entry)
    requires DistinctEntries(s)
    ensures multiset(s)[e] == if e in s then 1 else 0
  {
    if s != [] {
      var init := s[..|s| - 1];
      DistinctCount(init, e);
      MultisetLast(s);
    }
  }

  lemma MultisetLast<T>(s: seq<T>)
    requires s != []
    ensures multiset(s) == multiset(s[..|s| - 1]) + multiset([s[|s| - 1]])
  {
    assert s == s[..|s| - 1] + [s[|s| - 1]];
  }

  lemma {:induction false} UnplacedCount(fs: seq<Files.Entry>, placed: seq<Files.Entry>, e: Files.Entry)
    ensures multiset(Unplaced(fs, placed))[e] == if e in placed then 0 else multiset(fs)[e]
  {
    if fs != [] {
      var init, x := fs[..|fs| - 1], fs[|fs| - 1];
      UnplacedCount(init, placed, e);
      var u, tail := Unplaced(init, placed), if x in placed then [] else [x];
      assert Unplaced(fs, placed) == u + tail;
      assert multiset(u + tail) == multiset(u) + multiset(tail);
      MultisetLast(fs);
    }
  }

  /**
   * With no repeated index names and no repeated files, the merge is a
   * permutation of the discovered files: indexed files first, in index
   * order, then the rest in listing order.
   */
  lemma ReorderPermutation(files: seq<Files.Entry>, order: seq<string>)
    requires DistinctNames(order) && DistinctEntries(files)
    ensures var m := Matched(files, order);
            AddMissing(m, files) == m + Unplaced(files, m)
            && multiset(AddMissing(m, files)) == multiset(files)
  {
    var m := Matched(files, order);
    AddMissingDistinct(m, files);
    MatchedDistinct(files, order);
    forall e
      ensures multiset(m + Unplaced(files, m))[e] == multiset(files)[e]
    {
      ReorderCount(files, m, e);
    }
    assert multiset(m + Unplaced(files, m)) == multiset(files);
  }

  /** Each entry occurs as often in the placed-then-unplaced order as in the listing. */
  lemma ReorderCount(files: seq<Files.Entry>, m: seq<Files.Entry>, e: Files.Entry)
    requires DistinctEntries(m) && DistinctEntries(files)
    requires forall k :: 0 <= k < |m| ==> m[k] in files
    ensures multiset(m + Unplaced(files, m))[e] == multiset(files)[e]
  {
    DistinctCount(m, e);
    DistinctCount(files, e);
    UnplacedCount(files, m, e);
  }

  /** A name listed twice in the index places its file twice, so the result is longer than the listing. */
  lemma ReorderDuplicateName(e: Files.Entry)
    ensures AddMissing(Matched([e], [e.name, e.name]), [e]) == [e, e]
  {
    var one: seq<string> := [e.name];
    var two: seq<string> := [e.name, e.name];
    assert FirstNamed([e], e.name) == Some(e);
    assert one[..0] == [];
    assert Matched([e], one) == [e];
    assert two[..1] == one;
    assert Matched([e], two) == [e, e];
    var fs: seq<Files.Entry> := [e];
    assert fs[..0] == [];
    assert AddMissing([e, e], fs) == [e, e];
  }
}
