/**
 * Path gates: POSIX `abspath`/`normpath` over `/`-separated segments, the
 * "inside the base directory" check, `safe_path_join` and the output-path
 * validation. The process's working directory is a parameter.
 */
module Paths {
  import opened Wrappers
  import opened Text
  import Sanitize

  const MaxPathLength := 4096

  datatype PathError = PathTraversal | OutputPathTooLong | NotM4b | EmptyName

  predicate NoSlash(c: string) {
    forall k :: 0 <= k < |c| ==> c[k] != '/'
  }

  /** A segment that survives `normpath`: not empty, not `.` or `..`, no `/`. */
  predicate IsName(c: string) {
    c != [] && c != "." && c != ".." && NoSlash(c)
  }

  predicate AllNames(cs: seq<string>) {
    forall i :: 0 <= i < |cs| ==> IsName(cs[i])
  }

  /** Non-empty segments without `/`, which may still be `.` or `..`. */
  predicate AllSegs(cs: seq<string>) {
    forall i :: 0 <= i < |cs| ==> cs[i] != [] && NoSlash(cs[i])
  }

  /** `s.split('/')`. */
  function Split(s: string): (r: seq<string>)
    ensures |r| >= 1
    ensures forall i :: 0 <= i < |r| ==> NoSlash(r[i])
  {
    if s == [] then [[]]
    else if s[0] == '/' then [[]] + Split(s[1..])
    else
      var t := Split(s[1..]);
      [[s[0]] + t[0]] + t[1..]
  }

  /**
   * The segment loop of `posixpath.normpath` for an absolute path: empty and
   * `.` segments vanish, `..` drops the last kept segment (and nothing at the root).
   */
  function Resolve(acc: seq<string>, segs: seq<string>): (r: seq<string>)
    requires AllNames(acc)
    requires forall i :: 0 <= i < |segs| ==> NoSlash(segs[i])
    ensures AllNames(r)
    decreases |segs|
  {
    if segs == [] then acc
    else
      var c := segs[0];
      if c == [] || c == "." then Resolve(acc, segs[1..])
      else if c == ".." then Resolve(if acc == [] then [] else acc[..|acc| - 1], segs[1..])
      else Resolve(acc + [c], segs[1..])
  }

  /** The kept segments of an absolute path. */
  function Segments(p: string): (r: seq<string>)
    ensures AllNames(r)
  {
    Resolve([], Split(p))
  }

  /** `"/" + "/".join(cs)` without the root case. */
  function RenderNE(cs: seq<string>): string {
    if cs == [] then [] else "/" + cs[0] + RenderNE(cs[1..])
  }

  /** The string `normpath` builds from the kept segments of an absolute path. */
  function Render(cs: seq<string>): string {
    if cs == [] then "/" else RenderNE(cs)
  }

  /** `os.path.join(a, b)` for two parts. */
  function JoinPath(a: string, b: string): string {
    if StartsWith(b, "/") then b
    else if a == [] || EndsWith(a, "/") then a + b
    else a + "/" + b
  }

  /** `os.path.join(base, *parts)`. */
  function PyJoin(base: string, parts: seq<string>): string {
    if parts == [] then base else JoinPath(PyJoin(base, parts[..|parts| - 1]), parts[|parts| - 1])
  }

  /** The segments of `os.path.abspath(p)` when the working directory is `cwd`. */
  function AbsSegments(cwd: string, p: string): (r: seq<string>)
    ensures AllNames(r)
  {
    Segments(if StartsWith(p, "/") then p else JoinPath(cwd, p))
  }

  /** `os.path.abspath(p)`. */
  function AbsPath(cwd: string, p: string): string {
    Render(AbsSegments(cwd, p))
  }

  /** `validate_path_within_base`: the path is the base or below `base + "/"`, and not too long. */
  function ValidatePathWithinBase(cwd: string, path: string, base: string): bool {
    var a := AbsPath(cwd, path);
    var b := AbsPath(cwd, base);
    (StartsWith(a, b + "/") || a == b) && |a| <= MaxPathLength
  }

  /** `cs` is `ds` followed by at least one more segment. */
  predicate StrictlyBelow(cs: seq<string>, ds: seq<string>) {
    |ds| < |cs| && cs[..|ds|] == ds
  }

  // ---------------------------------------------------------------------------
  // The string check is a segment check
  // ---------------------------------------------------------------------------

  lemma RenderNEShape(cs: seq<string>)
    requires AllSegs(cs)
    ensures RenderNE(cs) == [] <==> cs == []
    ensures cs != [] ==> |RenderNE(cs)| >= 2 && RenderNE(cs)[0] == '/' && RenderNE(cs)[1] != '/'
  {
    if cs != [] {
      assert RenderNE(cs) == "/" + cs[0] + RenderNE(cs[1..]);
      assert RenderNE(cs)[1] == cs[0][0];
    }
  }

  lemma StartsWithCons(c: string, s: string, t: string)
    ensures StartsWith(c + s, c + t) <==> StartsWith(s, t)
  {
    if StartsWith(c + s, c + t) {
      assert s[..|t|] == (c + s)[..|c + t|][|c|..];
    }
    if StartsWith(s, t) {
      assert (c + s)[..|c + t|] == c + s[..|t|];
    }
  }

  /** Two names followed by slash-led tails: one prefixes the other only when the names agree. */
  lemma NamePrefix(a: string, b: string, x: string, y: string)
    requires a != [] && b != [] && NoSlash(a) && NoSlash(b)
    requires x == [] || x[0] == '/'
    requires y != [] && y[0] == '/'
    ensures StartsWith(a + x, b + y) <==> a == b && StartsWith(x, y)
  {
    if StartsWith(a + x, b + y) {
      var k := if |a| < |b| then |a| else |b|;
      assert (a + x)[k] == (b + y)[k];
      assert |a| == |b|;
      assert a == (a + x)[..|a|] == (b + y)[..|b|] == b;
    }
    if a == b {
      StartsWithCons(a, x, y);
    }
  }

  lemma NameEqual(a: string, b: string, x: string, y: string)
    requires a != [] && b != [] && NoSlash(a) && NoSlash(b)
    requires x == [] || x[0] == '/'
    requires y == [] || y[0] == '/'
    ensures a + x == b + y <==> a == b && x == y
  {
    if a + x == b + y {
      var k := if |a| < |b| then |a| else |b|;
      assert k < |a + x| ==> (a + x)[k] == (b + y)[k];
      assert |a| == |b|;
      assert a == (a + x)[..|a|];
      assert b == (b + y)[..|b|];
      assert x == (a + x)[|a|..];
      assert y == (b + y)[|b|..];
    }
  }

  lemma {:induction false} RenderNEStartsWith(cs: seq<string>, ds: seq<string>)
    requires AllNames(cs) && AllNames(ds)
    ensures StartsWith(RenderNE(cs), RenderNE(ds) + "/") <==> StrictlyBelow(cs, ds)
    decreases |ds|
  {
    RenderNEShape(cs);
    if ds == [] {
      assert RenderNE(ds) + "/" == "/";
    } else if cs == [] {
    } else {
      var x, y := RenderNE(cs[1..]), RenderNE(ds[1..]) + "/";
      RenderNEShape(cs[1..]);
      RenderNEShape(ds[1..]);
      assert RenderNE(cs) == "/" + (cs[0] + x);
      assert RenderNE(ds) + "/" == "/" + (ds[0] + y);
      StartsWithCons("/", cs[0] + x, ds[0] + y);
      NamePrefix(cs[0], ds[0], x, y);
      RenderNEStartsWith(cs[1..], ds[1..]);
      if StrictlyBelow(cs, ds) {
        assert cs[0] == ds[0];
        assert cs[1..][..|ds| - 1] == ds[1..];
      }
      if cs[0] == ds[0] && StrictlyBelow(cs[1..], ds[1..]) {
        assert cs[..|ds|] == [cs[0]] + cs[1..][..|ds| - 1];
        assert ds == [ds[0]] + ds[1..];
      }
    }
  }

  lemma {:induction false} RenderNEInjective(cs: seq<string>, ds: seq<string>)
    requires AllNames(cs) && AllNames(ds)
    ensures RenderNE(cs) == RenderNE(ds) <==> cs == ds
    decreases |ds|
  {
    RenderNEShape(cs);
    RenderNEShape(ds);
    if cs != [] && ds != [] {
      var x, y := RenderNE(cs[1..]), RenderNE(ds[1..]);
      RenderNEShape(cs[1..]);
      RenderNEShape(ds[1..]);
      assert RenderNE(cs) == "/" + (cs[0] + x);
      assert RenderNE(ds) == "/" + (ds[0] + y);
      assert RenderNE(cs) == RenderNE(ds) ==> cs[0] + x == ds[0] + y by {
        assert cs[0] + x == RenderNE(cs)[1..];
        assert ds[0] + y == RenderNE(ds)[1..];
      }
      NameEqual(cs[0], ds[0], x, y);
      RenderNEInjective(cs[1..], ds[1..]);
      if cs[0] == ds[0] && cs[1..] == ds[1..] {
        assert cs == [cs[0]] + cs[1..];
        assert ds == [ds[0]] + ds[1..];
      }
    }
  }

  /**
   * The source's string test is exactly segment descent: the path is accepted
   * when its segments equal the base's, or extend a non-root base's segments,
   * and its text is at most 4096 long. A root base admits only itself.
   */
  lemma WithinBaseIsDescent(cwd: string, path: string, base: string)
    ensures var a := AbsSegments(cwd, path);
            var b := AbsSegments(cwd, base);
            (ValidatePathWithinBase(cwd, path, base) <==>
             (a == b || (b != [] && StrictlyBelow(a, b))) && |Render(a)| <= MaxPathLength)
  {
    var a := AbsSegments(cwd, path);
    var b := AbsSegments(cwd, base);
    RenderNEShape(a);
    RenderNEShape(b);
    RenderNEInjective(a, b);
    RenderNEStartsWith(a, b);
    if b == [] {
      assert Render(b) + "/" == "//";
      if a != [] {
        assert Render(a)[1] != '/';
      }
    }
    if a == [] && b != [] {
      assert Render(a) != Render(b);
    }
  }

  // ---------------------------------------------------------------------------
  // Split and Resolve algebra
  // ---------------------------------------------------------------------------

  lemma {:induction false} SplitJoin(a: string, b: string)
    ensures Split(a + "/" + b) == Split(a) + Split(b)
    decreases |a|
  {
    if a == [] {
      assert a + "/" + b == "/" + b;
      assert ("/" + b)[1..] == b;
    } else {
      assert (a + "/" + b)[0] == a[0];
      assert (a + "/" + b)[1..] == a[1..] + "/" + b;
      SplitJoin(a[1..], b);
    }
  }

  lemma {:induction false} SplitName(c: string)
    requires NoSlash(c)
    ensures Split(c) == [c]
    decreases |c|
  {
    if c != [] {
      SplitName(c[1..]);
      assert [c[0]] + c[1..] == c;
    }
  }

  lemma {:induction false} ResolveAppend(acc: seq<string>, xs: seq<string>, ys: seq<string>)
    requires AllNames(acc)
    requires forall i :: 0 <= i < |xs| ==> NoSlash(xs[i])
    requires forall i :: 0 <= i < |ys| ==> NoSlash(ys[i])
    ensures Resolve(acc, xs + ys) == Resolve(Resolve(acc, xs), ys)
    decreases |xs|
  {
    if xs != [] {
      assert (xs + ys)[0] == xs[0];
      assert (xs + ys)[1..] == xs[1..] + ys;
      var c := xs[0];
      if c == [] || c == "." {
        ResolveAppend(acc, xs[1..], ys);
      } else if c == ".." {
        ResolveAppend(if acc == [] then [] else acc[..|acc| - 1], xs[1..], ys);
      } else {
        ResolveAppend(acc + [c], xs[1..], ys);
      }
    } else {
      assert xs + ys == ys;
    }
  }

  /** `normpath` keeps plain names as they are. */
  lemma {:induction false} ResolveNames(acc: seq<string>, names: seq<string>)
    requires AllNames(acc) && AllNames(names)
    ensures Resolve(acc, names) == acc + names
    decreases |names|
  {
    if names != [] {
      ResolveNames(acc + [names[0]], names[1..]);
      assert acc + [names[0]] + names[1..] == acc + names;
    }
  }

  /** Appending one name below an absolute path appends one segment. */
  lemma JoinNameSegments(x: string, name: string)
    requires StartsWith(x, "/") && IsName(name)
    ensures StartsWith(JoinPath(x, name), "/")
    ensures Segments(JoinPath(x, name)) == Segments(x) + [name]
  {
    SplitName(name);
    assert !StartsWith(name, "/");
    if EndsWith(x, "/") {
      var x' := x[..|x| - 1];
      assert x == x' + "/" + [];
      assert JoinPath(x, name) == x' + "/" + name;
      SplitJoin(x', []);
      SplitJoin(x', name);
      ResolveAppend([], Split(x'), [[]]);
      ResolveAppend([], Split(x'), [name]);
      ResolveNames(Resolve([], Split(x')), [name]);
    } else {
      SplitJoin(x, name);
      ResolveAppend([], Split(x), [name]);
      ResolveNames(Resolve([], Split(x)), [name]);
    }
    assert JoinPath(x, name)[..1] == x[..1];
  }

  lemma {:induction false} PyJoinNames(base: string, parts: seq<string>)
    requires StartsWith(base, "/") && AllNames(parts)
    ensures StartsWith(PyJoin(base, parts), "/")
    ensures Segments(PyJoin(base, parts)) == Segments(base) + parts
    decreases |parts|
  {
    if parts != [] {
      var init := parts[..|parts| - 1];
      PyJoinNames(base, init);
      JoinNameSegments(PyJoin(base, init), parts[|parts| - 1]);
      assert init + [parts[|parts| - 1]] == parts;
    }
  }

  /** `normpath` of an already normal path gives its segments back. */
  lemma {:induction false} SegmentsOfRender(cs: seq<string>)
    requires AllNames(cs)
    ensures Segments(Render(cs)) == cs
  {
    if cs == [] {
      assert Split("/") == [[], []];
    } else {
      SplitRenderNE(cs);
      ResolveAppend([], [[]], cs);
      ResolveNames([], cs);
    }
  }

  lemma {:induction false} SplitNameRender(cs: seq<string>)
    requires AllSegs(cs) && cs != []
    ensures Split(cs[0] + RenderNE(cs[1..])) == cs
    decreases |cs|
  {
    SplitName(cs[0]);
    if |cs| == 1 {
      assert cs[0] + RenderNE(cs[1..]) == cs[0];
    } else {
      var t := cs[1..];
      SplitNameRender(t);
      assert RenderNE(t) == "/" + (t[0] + RenderNE(t[1..]));
      assert cs[0] + RenderNE(t) == cs[0] + "/" + (t[0] + RenderNE(t[1..]));
      SplitJoin(cs[0], t[0] + RenderNE(t[1..]));
      assert cs == [cs[0]] + t;
    }
  }

  lemma SplitRenderNE(cs: seq<string>)
    requires AllSegs(cs) && cs != []
    ensures Split(RenderNE(cs)) == [[]] + cs
  {
    var x := cs[0] + RenderNE(cs[1..]);
    SplitNameRender(cs);
    assert RenderNE(cs) == [] + "/" + x;
    SplitJoin([], x);
  }

  /** An absolute path written out from segments splits back into them. */
  lemma SegmentsOfSegs(cwd: string, p: string, cs: seq<string>)
    requires AllSegs(cs) && cs != [] && p == RenderNE(cs)
    ensures AbsSegments(cwd, p) == Resolve([], cs)
  {
    SplitRenderNE(cs);
    ResolveAppend([], [[]], cs);
  }

  lemma SegmentsOfNames(cwd: string, p: string, cs: seq<string>)
    requires AllNames(cs) && cs != [] && p == RenderNE(cs)
    ensures AbsSegments(cwd, p) == cs
  {
    SegmentsOfSegs(cwd, p, cs);
    ResolveNames([], cs);
  }

  lemma ClimbOut(cs: seq<string>)
    requires cs == ["tmp", "test_audiobook", "..", "..", "..", "etc", "passwd"]
    ensures Resolve([], cs) == ["etc", "passwd"]
  {
    var t6 := ["passwd"];
    var t5 := ["etc"] + t6;
    var t4 := [".."] + t5;
    var t3 := [".."] + t4;
    var t2 := [".."] + t3;
    var t1 := ["test_audiobook"] + t2;
    assert cs == ["tmp"] + t1;
    assert IsName("tmp") && IsName("test_audiobook") && IsName("etc") && IsName("passwd") && NoSlash("..");
    SegsCons("etc", t6);
    SegsCons("..", t5);
    SegsCons("..", t4);
    SegsCons("..", t3);
    SegsCons("test_audiobook", t2);
    calc {
      Resolve([], ["tmp"] + t1);
      { ResolveNameStep([], "tmp", t1); assert [] + ["tmp"] == ["tmp"]; }
      Resolve(["tmp"], t1);
      { ResolveNameStep(["tmp"], "test_audiobook", t2); }
      Resolve(["tmp", "test_audiobook"], t2);
      { ResolveUpStep(["tmp", "test_audiobook"], t3); }
      Resolve(["tmp"], t3);
      { ResolveUpStep(["tmp"], t4); }
      Resolve([], t4);
      { ResolveUpStep([], t5); }
      Resolve([], t5);
      { ResolveNameStep([], "etc", t6); assert [] + ["etc"] == ["etc"]; }
      Resolve(["etc"], t6);
      { ResolveNameStep(["etc"], "passwd", []); assert t6 == ["passwd"] + []; }
      Resolve(["etc", "passwd"], []);
    }
  }

  lemma SegsCons(c: string, rest: seq<string>)
    requires NoSlash(c) && forall i :: 0 <= i < |rest| ==> NoSlash(rest[i])
    ensures forall i :: 0 <= i < |[c] + rest| ==> NoSlash(([c] + rest)[i])
  {
    forall i | 0 <= i < |[c] + rest|
      ensures NoSlash(([c] + rest)[i])
    {
      if i > 0 { assert ([c] + rest)[i] == rest[i - 1]; }
    }
  }

  /** A name is kept. */
  lemma ResolveNameStep(acc: seq<string>, c: string, rest: seq<string>)
    requires AllNames(acc) && IsName(c)
    requires forall i :: 0 <= i < |rest| ==> NoSlash(rest[i])
    ensures AllNames(acc + [c])
    ensures Resolve(acc, [c] + rest) == Resolve(acc + [c], rest)
  {
    SegsCons(c, rest);
    assert ([c] + rest)[1..] == rest;
  }

  /** `..` drops the last kept segment, and stays at the root. */
  lemma ResolveUpStep(acc: seq<string>, rest: seq<string>)
    requires AllNames(acc)
    requires forall i :: 0 <= i < |rest| ==> NoSlash(rest[i])
    ensures Resolve(acc, [".."] + rest) == Resolve(if acc == [] then [] else acc[..|acc| - 1], rest)
  {
    assert NoSlash("..");
    SegsCons("..", rest);
    assert ([".."] + rest)[1..] == rest;
  }

  /** The base directory of the source's path tests, `/tmp/test_audiobook`, as segments. */
  const TestBase: seq<string> := ["tmp", "test_audiobook"]

  /** `/tmp/test_audiobook/../../../etc/passwd` climbs out of the base and is rejected. */
  lemma ValidateTraversalExample(cwd: string)
    ensures !ValidatePathWithinBase(cwd, RenderNE(TestBase + ["..", "..", "..", "etc", "passwd"]), RenderNE(TestBase))
  {
    var cs := TestBase + ["..", "..", "..", "etc", "passwd"];
    assert cs == ["tmp", "test_audiobook", "..", "..", "..", "etc", "passwd"];
    assert AllNames(TestBase) by { assert IsName("tmp") && IsName("test_audiobook"); }
    SegmentsOfSegs(cwd, RenderNE(cs), cs);
    ClimbOut(cs);
    SegmentsOfNames(cwd, RenderNE(TestBase), TestBase);
    WithinBaseIsDescent(cwd, RenderNE(cs), RenderNE(TestBase));
  }

  /** `/tmp/test_audiobook/subdir/file.mp3` is accepted. */
  lemma ValidateSubdirExample(cwd: string)
    ensures ValidatePathWithinBase(cwd, RenderNE(TestBase + ["subdir", "file.mp3"]), RenderNE(TestBase))
  {
    var cs := TestBase + ["subdir", "file.mp3"];
    assert AllNames(cs) by {
      assert IsName("tmp") && IsName("test_audiobook") && IsName("subdir") && IsName("file.mp3");
    }
    assert AllNames(TestBase);
    SegmentsOfNames(cwd, RenderNE(cs), cs);
    SegmentsOfNames(cwd, RenderNE(TestBase), TestBase);
    WithinBaseIsDescent(cwd, RenderNE(cs), RenderNE(TestBase));
    assert StrictlyBelow(cs, TestBase);
    assert |RenderNE(cs[3..])| == 9;
    assert |RenderNE(cs[2..])| == 16;
    assert |RenderNE(cs[1..])| == 31;
    assert |Render(cs)| < MaxPathLength;
  }

  /** `/tmp/test_audiobook_x` only shares a text prefix with the base and is rejected. */
  lemma ValidateSiblingExample(cwd: string)
    ensures !ValidatePathWithinBase(cwd, RenderNE(["tmp", "test_audiobook_x"]), RenderNE(TestBase))
  {
    var cs := ["tmp", "test_audiobook_x"];
    assert AllNames(cs) && AllNames(TestBase) by {
      assert IsName("tmp") && IsName("test_audiobook") && IsName("test_audiobook_x");
    }
    SegmentsOfNames(cwd, RenderNE(cs), cs);
    SegmentsOfNames(cwd, RenderNE(TestBase), TestBase);
    WithinBaseIsDescent(cwd, RenderNE(cs), RenderNE(TestBase));
  }

  // ---------------------------------------------------------------------------
  // safe_path_join
  // ---------------------------------------------------------------------------

  /** `safe_path_join`: join, reject what leaves the base, return the absolute form. */
  function SafePathJoin(cwd: string, base: string, parts: seq<string>): (r: Result<string, PathError>)
    ensures r.Failure? <==> !ValidatePathWithinBase(cwd, PyJoin(base, parts), base)
  {
    var full := PyJoin(base, parts);
    if !ValidatePathWithinBase(cwd, full, base) then Failure(PathTraversal)
    else Success(AbsPath(cwd, full))
  }

  /**
   * A joined path that is returned lies inside the base: its segments are the
   * base's or extend them, and checking the returned path again accepts it.
   */
  lemma SafePathJoinContained(cwd: string, base: string, parts: seq<string>)
    requires StartsWith(cwd, "/")
    requires SafePathJoin(cwd, base, parts).Success?
    ensures var r := SafePathJoin(cwd, base, parts).value;
            var b := AbsSegments(cwd, base);
            var s := Segments(r);
            && (s == b || (b != [] && StrictlyBelow(s, b)))
            && ValidatePathWithinBase(cwd, r, base)
  {
    var full := PyJoin(base, parts);
    WithinBaseIsDescent(cwd, full, base);
    var a := AbsSegments(cwd, full);
    SegmentsOfRender(a);
    RenderNEShape(a);
    assert StartsWith(Render(a), "/");
    assert AbsSegments(cwd, Render(a)) == a;
    WithinBaseIsDescent(cwd, Render(a), base);
  }

  /**
   * Joining plain names below an absolute, non-root base succeeds and adds
   * exactly those names as segments, when the result fits in 4096 characters.
   */
  lemma SafePathJoinNames(cwd: string, base: string, parts: seq<string>)
    requires StartsWith(base, "/") && AllNames(parts) && parts != []
    requires Segments(base) != []
    requires |Render(Segments(base) + parts)| <= MaxPathLength
    ensures SafePathJoin(cwd, base, parts) == Success(Render(Segments(base) + parts))
  {
    PyJoinNames(base, parts);
    var b := Segments(base);
    assert AbsSegments(cwd, base) == b;
    assert AbsSegments(cwd, PyJoin(base, parts)) == b + parts;
    assert StrictlyBelow(b + parts, b);
    WithinBaseIsDescent(cwd, PyJoin(base, parts), base);
  }

  /** With a base at the root, no join below it passes: `"/" + "/"` is never a prefix. */
  lemma SafePathJoinRootBase(cwd: string, parts: seq<string>)
    requires AllNames(parts) && parts != []
    ensures SafePathJoin(cwd, "/", parts).Failure?
  {
    PyJoinNames("/", parts);
    assert Split("/") == [[], []];
    assert Segments("/") == [];
    WithinBaseIsDescent(cwd, PyJoin("/", parts), "/");
  }

  // ---------------------------------------------------------------------------
  // validate_output_path
  // ---------------------------------------------------------------------------

  /** `os.path.basename`. */
  function Basename(p: string): string {
    p[RFind(p, '/') + 1..]
  }

  function RStripSlash(s: string): (r: string)
    ensures |r| <= |s| && r == s[..|r|]
  {
    if s != [] && s[|s| - 1] == '/' then RStripSlash(s[..|s| - 1]) else s
  }

  /** `os.path.dirname`: the head up to the last `/`, trailing slashes removed unless it is all slashes. */
  function Dirname(p: string): string {
    var head := p[..RFind(p, '/') + 1];
    if head != [] && RStripSlash(head) != [] then RStripSlash(head) else head
  }

  /**
   * `validate_output_path`: make the path absolute, reject it when longer than
   * 4096 or when it does not end in `.m4b` (any case), and sanitise only the
   * last component.
   */
  function ValidateOutputPath(cwd: string, output: string): (r: Result<string, PathError>)
    ensures r == Failure(OutputPathTooLong) <==> |AbsPath(cwd, output)| > MaxPathLength
    ensures r == Failure(NotM4b)
            <==> |AbsPath(cwd, output)| <= MaxPathLength && !EndsWith(Lower(AbsPath(cwd, output)), ".m4b")
  {
    var abs := AbsPath(cwd, output);
    if |abs| > MaxPathLength then Failure(OutputPathTooLong)
    else if !EndsWith(Lower(abs), ".m4b") then Failure(NotM4b)
    else
      match Sanitize.SanitizeFilename(Basename(abs))
      case Failure(_) => Failure(EmptyName)
      case Success(safe) => Success(JoinPath(Dirname(abs), safe))
  }

  lemma {:induction false} RenderNESnoc(cs: seq<string>)
    requires cs != []
    ensures RenderNE(cs) == RenderNE(cs[..|cs| - 1]) + "/" + cs[|cs| - 1]
    decreases |cs|
  {
    if |cs| > 1 {
      RenderNESnoc(cs[1..]);
      assert cs[1..][..|cs| - 2] == cs[..|cs| - 1][1..];
    }
  }

  /** The last `/` of a normal absolute path is the one before its last segment. */
  lemma BasenameRendered(init: seq<string>, last: string)
    requires AllNames(init) && IsName(last)
    ensures RFind(RenderNE(init) + "/" + last, '/') == |RenderNE(init)|
    ensures Basename(RenderNE(init) + "/" + last) == last
  {
    var p := RenderNE(init) + "/" + last;
    assert p[|RenderNE(init)|] == '/';
    assert forall j :: |RenderNE(init)| < j < |p| ==> p[j] == last[j - |RenderNE(init)| - 1];
    RFindUnique(p, '/', |RenderNE(init)|);
    assert p[|RenderNE(init)| + 1..] == last;
  }

  /** The dirname of a normal absolute path is the path of all but its last segment. */
  lemma DirnameRendered(init: seq<string>, last: string)
    requires AllNames(init) && IsName(last)
    ensures Dirname(RenderNE(init) + "/" + last) == Render(init)
  {
    var r := RenderNE(init);
    var p := r + "/" + last;
    BasenameRendered(init, last);
    var head := p[..|r| + 1];
    assert head == r + "/";
    assert head[..|head| - 1] == r;
    assert RStripSlash(head) == RStripSlash(r);
    if init == [] {
      assert RStripSlash(r) == [];
    } else {
      RenderNEShape(init);
      NoTrailingSlash(init);
      assert RStripSlash(r) == r;
    }
  }

  /** A normal absolute path of at least one segment does not end in `/`. */
  lemma NoTrailingSlash(cs: seq<string>)
    requires AllNames(cs) && cs != []
    ensures RenderNE(cs) != [] && RenderNE(cs)[|RenderNE(cs)| - 1] != '/'
  {
    RenderNESnoc(cs);
    var l := cs[|cs| - 1];
    assert RenderNE(cs)[|RenderNE(cs)| - 1] == l[|l| - 1];
  }

  /** Basename and dirname of a normal absolute path are its last segment and the rest. */
  lemma SplitRendered(init: seq<string>, last: string, safe: string)
    requires AllNames(init) && IsName(last) && !StartsWith(safe, "/")
    ensures var p := RenderNE(init) + "/" + last;
            Basename(p) == last && JoinPath(Dirname(p), safe) == RenderNE(init) + "/" + safe
  {
    BasenameRendered(init, last);
    DirnameRendered(init, last);
    if init != [] {
      NoTrailingSlash(init);
      assert !EndsWith(RenderNE(init), "/");
    }
  }

  /** The output path the source builds, in terms of the segments of the absolute path. */
  lemma OutputPathOfSegments(cwd: string, output: string)
    requires |AbsPath(cwd, output)| <= MaxPathLength
    requires EndsWith(Lower(AbsPath(cwd, output)), ".m4b")
    ensures var a := AbsSegments(cwd, output);
            && a != []
            && ValidateOutputPath(cwd, output)
               == match Sanitize.SanitizeFilename(a[|a| - 1])
                  case Failure(_) => Failure(EmptyName)
                  case Success(safe) => Success(RenderNE(a[..|a| - 1]) + "/" + safe)
  {
    var a := AbsSegments(cwd, output);
    assert a != [];
    RenderNESnoc(a);
    var init, last := a[..|a| - 1], a[|a| - 1];
    var r := Sanitize.SanitizeFilename(last);
    if r.Success? {
      SanitizedNotRooted(r.value);
      SplitRendered(init, last, r.value);
    } else {
      SplitRendered(init, last, []);
    }
  }

  /** A sanitised file name never starts with `/`, so joining it keeps the directory. */
  lemma SanitizedNotRooted(s: string)
    requires s != [] && Sanitize.AllFilenameChars(s)
    ensures !StartsWith(s, "/")
  {
    assert Sanitize.IsFilenameChar(s[0]);
  }

  /**
   * A validated output path keeps the requested directory and replaces only
   * the last component by its sanitised form.
   */
  lemma OutputPathKeepsDirectory(cwd: string, output: string)
    requires ValidateOutputPath(cwd, output).Success?
    ensures var a := AbsSegments(cwd, output);
            && a != []
            && Sanitize.SanitizeFilename(a[|a| - 1]).Success?
            && ValidateOutputPath(cwd, output).value
               == RenderNE(a[..|a| - 1]) + "/" + Sanitize.SanitizeFilename(a[|a| - 1]).value
  {
    OutputPathOfSegments(cwd, output);
  }

  /** A name with no unsafe character and a real stem passes through unchanged. */
  lemma SanitizeDotM4b()
    ensures Sanitize.SanitizeFilename(".m4b") == Success("m4b")
  {
    var m := Sanitize.ReplaceUnsafe(".m4b");
    assert m == ".m4b";
    assert Sanitize.LeadingDotSpace(m) == 1;
    assert Sanitize.LStripDotSpace(m) == "m4b";
  }

  lemma BooksDotM4bSegments(cwd: string, p: string, cs: seq<string>)
    requires p == "/books/.m4b" && cs == ["books", ".m4b"]
    ensures AbsSegments(cwd, p) == cs && AbsPath(cwd, p) == p
    ensures EndsWith(Lower(p), ".m4b")
  {
    assert AllNames(cs) by {
      assert IsName("books");
      assert IsName(".m4b");
    }
    assert RenderNE(cs) == p by {
      assert cs[1..] == [".m4b"];
      assert RenderNE([".m4b"]) == "/.m4b";
    }
    SegmentsOfRender(cs);
    assert StartsWith(p, "/");
    assert Lower(p)[|p| - 4..] == ".m4b";
  }

  /** `/books/.m4b` keeps its directory but its name loses the leading dot and becomes `m4b`. */
  lemma OutputPathDotM4b(cwd: string, p: string)
    requires p == "/books/.m4b"
    ensures ValidateOutputPath(cwd, p) == Success("/books/m4b")
  {
    var cs := ["books", ".m4b"];
    BooksDotM4bSegments(cwd, p, cs);
    OutputPathOfSegments(cwd, p);
    SanitizeDotM4b();
    var a := AbsSegments(cwd, p);
    assert a[|a| - 1] == ".m4b";
    var init := a[..|a| - 1];
    assert ValidateOutputPath(cwd, p) == Success(RenderNE(init) + "/" + "m4b");
    assert init == ["books"];
    BooksDirectory(init);
  }

  lemma BooksDirectory(init: seq<string>)
    requires init == ["books"]
    ensures RenderNE(init) + "/" + "m4b" == "/books/m4b"
  {
  }

  // ---------------------------------------------------------------------------
  // Path(x).name
  // ---------------------------------------------------------------------------

  /** The segments `pathlib` keeps: everything but empty and `.` parts. */
  function PathParts(segs: seq<string>): (r: seq<string>)
    ensures forall i :: 0 <= i < |r| ==> r[i] != [] && r[i] != "."
  {
    if segs == [] then []
    else PathParts(segs[..|segs| - 1]) + (if segs[|segs| - 1] in {[], "."} then [] else [segs[|segs| - 1]])
  }

  /** `pathlib.PurePosixPath(p).name`: the last kept part, or empty. */
  function PathName(p: string): (r: string)
    ensures r != "."
    ensures NoSlash(r)
  {
    var parts := PathParts(Split(p));
    if parts == [] then [] else
      PathPartsNoSlash(Split(p));
      parts[|parts| - 1]
  }

  /** A kept part appended to the segments is the last kept part; an empty one changes nothing. */
  lemma PathPartsSnoc(segs: seq<string>, c: string)
    ensures PathParts(segs + [c]) == PathParts(segs) + (if c in {[], "."} then [] else [c])
  {
    assert (segs + [c])[..|segs|] == segs;
  }

  /**
   * `Path(d + "/" + n).name` is `n` for a plain name `n`, with or without a
   * trailing slash, and the root has the empty name.
   */
  lemma PathNameLast(d: string, n: string)
    requires NoSlash(n) && n != [] && n != "."
    ensures PathName(d + "/" + n) == n
    ensures PathName(d + "/" + n + "/") == n
    ensures PathName("/") == []
  {
    SplitJoin(d, n);
    SplitName(n);
    assert Split(d + "/" + n) == Split(d) + [n];
    PathPartsSnoc(Split(d), n);
    SplitJoin(d + "/" + n, []);
    assert d + "/" + n + "/" == (d + "/" + n) + "/" + [];
    assert Split([]) == [[]];
    PathPartsSnoc(Split(d) + [n], []);
    assert Split("/") == [[], []];
    assert PathParts([[]]) == [] by { PathPartsSnoc([], []); }
    PathPartsSnoc([[]], []);
  }

  lemma {:induction false} PathPartsNoSlash(segs: seq<string>)
    requires forall i :: 0 <= i < |segs| ==> NoSlash(segs[i])
    ensures forall i :: 0 <= i < |PathParts(segs)| ==> NoSlash(PathParts(segs)[i])
  {
    if segs != [] { PathPartsNoSlash(segs[..|segs| - 1]); }
  }
}
