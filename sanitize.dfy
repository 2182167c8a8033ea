/**
 * The sanitisation layer: every string that reaches a path, a metadata
 * field or a command argument goes through one of these first.
 */
module Sanitize {
  import opened Wrappers
  import opened Text

  const MaxFilenameLength := 255
  const MaxChapterNameLength := 200
  const MaxTagValueLength := 500
  const FallbackFilename := "sanitized_file"
  const UnnamedChapter := "Unnamed Chapter"

  /** `sanitize_filename` raises `ValueError` on an empty name. */
  datatype SanitizeError = EmptyFilename

  // ---------------------------------------------------------------------------
  // sanitize_filename
  // ---------------------------------------------------------------------------

  /** The characters the regex `[^a-zA-Z0-9._\-\s]` leaves alone. */
  predicate IsFilenameChar(c: char) {
    IsAsciiAlnum(c) || c == '.' || c == '_' || c == '-' || IsSpace(c)
  }

  /** The characters a shell or a command line would give a meaning to. */
  predicate IsShellMeta(c: char) {
    c in ";&|`$(){}[]<>\"\\'/*?!#~"
  }

  predicate AllFilenameChars(s: string) {
    forall i :: 0 <= i < |s| ==> IsFilenameChar(s[i])
  }

  /** `re.sub(r'[^a-zA-Z0-9._\-\s]', '_', s)`. */
  function ReplaceUnsafe(s: string): (r: string)
    ensures |r| == |s| && AllFilenameChars(r)
    ensures forall i :: 0 <= i < |s| ==> r[i] == if IsFilenameChar(s[i]) then s[i] else '_'
  {
    seq(|s|, i requires 0 <= i < |s| => if IsFilenameChar(s[i]) then s[i] else '_')
  }

  /** How many characters `s.lstrip('. ')` removes. */
  function LeadingDotSpace(s: string): (n: nat)
    ensures n <= |s|
    ensures forall i :: 0 <= i < n ==> s[i] == '.' || s[i] == ' '
    ensures n < |s| ==> s[n] != '.' && s[n] != ' '
  {
    if s != [] && (s[0] == '.' || s[0] == ' ') then 1 + LeadingDotSpace(s[1..]) else 0
  }

  /** `s.lstrip('. ')`. */
  function LStripDotSpace(s: string): (r: string)
    ensures r == [] || (r[0] != '.' && r[0] != ' ')
    ensures AllFilenameChars(s) ==> AllFilenameChars(r)
    ensures r == s[LeadingDotSpace(s)..]
  {
    s[LeadingDotSpace(s)..]
  }

  /**
   * `os.path.splitext` on POSIX: the extension starts at the last `.` after the
   * last `/`, unless everything between that `/` and the dot is dots.
   */
  function SplitExt(p: string): (r: (string, string))
    ensures r.0 + r.1 == p
  {
    var sep := RFind(p, '/');
    var dot := RFind(p, '.');
    if dot > sep && exists j :: sep + 1 <= j < dot && p[j] != '.' then (p[..dot], p[dot..])
    else (p, [])
  }

  /** The part of `s` from its last `.` on, or empty when `s` has no dot. */
  function DotSuffix(s: string): (r: string)
    ensures r == [] || r[0] == '.'
    ensures '.' !in s ==> r == []
  {
    var d := RFind(s, '.');
    if d < 0 then [] else s[d..]
  }

  /** The length cap at main.py:51-53. */
  function Truncate(s: string): (r: string)
    ensures |s| <= MaxFilenameLength ==> r == s
    ensures AllFilenameChars(s) ==> AllFilenameChars(r)
  {
    if |s| > MaxFilenameLength then
      var (name, ext) := SplitExt(s);
      SafeCharsKept(s, name, ext);
      PyPrefix(name, MaxFilenameLength - |ext|) + ext
    else s
  }

  /**
   * `sanitize_filename`. The pipeline is: replace unsafe characters with `_`,
   * strip leading dots and spaces, cap the length keeping the extension, and
   * fall back to a fixed name when nothing but whitespace is left.
   */
  function SanitizeFilename(filename: string): (r: Result<string, SanitizeError>)
    ensures r.Failure? <==> filename == []
    ensures r.Success? ==> r.value != [] && !IsAllSpace(r.value)
    ensures r.Success? ==> AllFilenameChars(r.value)
  {
    if filename == [] then Failure(EmptyFilename)
    else
      var t := Truncate(LStripDotSpace(ReplaceUnsafe(filename)));
      FallbackIsSafe();
      Success(if t == [] || IsAllSpace(t) then FallbackFilename else t)
  }

  lemma FallbackIsSafe()
    ensures AllFilenameChars(FallbackFilename) && !IsAllSpace(FallbackFilename)
  {
    assert !IsSpace(FallbackFilename[0]);
  }

  /** Capping a name at its extension never brings in a character that was not there. */
  lemma SafeCharsKept(s: string, name: string, ext: string)
    requires name + ext == s
    ensures AllFilenameChars(s) ==> AllFilenameChars(PyPrefix(name, MaxFilenameLength - |ext|) + ext)
  {
    var head := PyPrefix(name, MaxFilenameLength - |ext|);
    if AllFilenameChars(s) {
      forall i | 0 <= i < |head + ext| ensures IsFilenameChar((head + ext)[i]) {
        if i < |head| { assert (head + ext)[i] == s[i]; }
        else { assert (head + ext)[i] == s[|name| + i - |head|]; }
      }
    }
  }

  /** No character a shell gives a meaning to survives `sanitize_filename`. */
  lemma FilenameCharsAreInert(c: char)
    requires IsFilenameChar(c)
    ensures !IsShellMeta(c)
  {
  }

  /** The dots of `ReplaceUnsafe(s)` sit exactly where the dots of `s` do. */
  lemma ReplaceUnsafeKeepsDots(s: string)
    ensures RFind(ReplaceUnsafe(s), '.') == RFind(s, '.')
    ensures RFind(ReplaceUnsafe(s), '/') == -1
  {
    var m := ReplaceUnsafe(s);
    RFindUnique(m, '.', RFind(s, '.'));
    RFindUnique(m, '/', -1);
  }

  /** Dropping a prefix of length `n` shifts the last dot by `n`, or loses it. */
  lemma RFindDrop(s: string, n: nat, c: char)
    requires n <= |s|
    ensures RFind(s[n..], c) == if RFind(s, c) >= n then RFind(s, c) - n else -1
  {
    var k := RFind(s, c);
    RFindUnique(s[n..], c, if k >= n then k - n else -1);
  }

  /** For a name with no `/` that does not start with a dot, `splitext` splits at the last dot. */
  lemma SplitExtPlain(s: string)
    requires s != [] && s[0] != '.' && RFind(s, '/') == -1
    ensures var d := RFind(s, '.');
            SplitExt(s) == if d < 0 then (s, []) else (s[..d], s[d..])
  {
    var d := RFind(s, '.');
    if d >= 0 {
      assert d > 0;
      assert 0 <= 0 < d && s[0] != '.';
    }
  }

  /** The length cap on a long name without `/`: the head is cut so that the whole is 255. */
  lemma TruncateLong(s: string)
    requires |s| > MaxFilenameLength && s[0] != '.' && RFind(s, '/') == -1
    requires RFind(s, '.') < 0 || |s| - RFind(s, '.') < MaxFilenameLength
    ensures var d := RFind(s, '.');
            Truncate(s) == if d < 0 then s[..MaxFilenameLength]
                           else s[..MaxFilenameLength - (|s| - d)] + s[d..]
    ensures |Truncate(s)| == MaxFilenameLength && Truncate(s)[0] == s[0]
  {
    SplitExtPlain(s);
    var d := RFind(s, '.');
    if d < 0 {
      assert SplitExt(s) == (s, []);
      assert Truncate(s) == Take(s, MaxFilenameLength) + [];
    } else {
      var name, ext := s[..d], s[d..];
      assert SplitExt(s) == (name, ext);
      var k := MaxFilenameLength - |ext|;
      assert 0 < k < |name|;
      assert Truncate(s) == Take(name, k) + ext;
      assert Take(name, k) == s[..k];
    }
  }

  /**
   * After `ReplaceUnsafe` and `LStripDotSpace` the name has no `/`, and its
   * last dot is as far from the end as the raw input's.
   */
  lemma StrippedShape(filename: string)
    ensures var s := LStripDotSpace(ReplaceUnsafe(filename));
            && RFind(s, '/') == -1
            && (RFind(s, '.') >= 0 ==> |s| - RFind(s, '.') == |DotSuffix(filename)|)
  {
    var m := ReplaceUnsafe(filename);
    var n := LeadingDotSpace(m);
    ReplaceUnsafeKeepsDots(filename);
    RFindDrop(m, n, '.');
    RFindDrop(m, n, '/');
  }

  /**
   * When the raw extension (from the last dot) is shorter than 255, the result
   * is at most 255 long and does not start with a dot or a space.
   */
  lemma SanitizeFilenameBounded(filename: string)
    requires filename != []
    requires |DotSuffix(filename)| < MaxFilenameLength
    ensures var r := SanitizeFilename(filename).value;
            |r| <= MaxFilenameLength && r[0] != '.' && r[0] != ' '
  {
    var s := LStripDotSpace(ReplaceUnsafe(filename));
    StrippedShape(filename);
    if |s| > MaxFilenameLength {
      TruncateLong(s);
    }
  }

  /** A sanitised name that is short and does not start with a dot or space is a fixed point. */
  lemma SanitizeFilenameFixedPoint(r: string)
    requires r != [] && !IsAllSpace(r)
    requires AllFilenameChars(r)
    requires |r| <= MaxFilenameLength && r[0] != '.' && r[0] != ' '
    ensures SanitizeFilename(r) == Success(r)
  {
    assert ReplaceUnsafe(r) == r;
    assert LeadingDotSpace(r) == 0;
    assert LStripDotSpace(r) == r;
    assert Truncate(r) == r;
  }

  /** `sanitize_filename` is idempotent whenever its length cap can be met. */
  lemma SanitizeFilenameIdempotent(filename: string)
    requires filename != []
    requires |DotSuffix(filename)| < MaxFilenameLength
    ensures SanitizeFilename(SanitizeFilename(filename).value) == SanitizeFilename(filename)
  {
    SanitizeFilenameBounded(filename);
    SanitizeFilenameFixedPoint(SanitizeFilename(filename).value);
  }

  /** `c * n` in Python: the character `c` repeated `n` times. */
  function Repeat(c: char, n: nat): (r: string)
    ensures |r| == n && forall i :: 0 <= i < n ==> r[i] == c
  {
    seq(n, _ => c)
  }

  /**
   * An extension of 256 or more characters defeats both the cap and the dot
   * strip: only the extension is kept, and the result starts with a dot.
   */
  lemma SanitizeFilenameLongExtension(n: nat)
    requires n >= MaxFilenameLength
    ensures SanitizeFilename("a." + Repeat('b', n)) == Success("." + Repeat('b', n))
  {
    LongExtensionAt(n, "a." + Repeat('b', n), "." + Repeat('b', n));
  }

  lemma LongExtensionAt(n: nat, x: string, t: string)
    requires n >= MaxFilenameLength
    requires x == "a." + Repeat('b', n) && t == "." + Repeat('b', n)
    ensures SanitizeFilename(x) == Success(t)
  {
    LongExtensionSteps(n);
    SanitizedAs(x, t);
  }

  /** The replacement, strip and cap steps on `"a." + "b" * n`. */
  lemma LongExtensionSteps(n: nat)
    requires n >= MaxFilenameLength
    ensures Truncate(LStripDotSpace(ReplaceUnsafe("a." + Repeat('b', n)))) == "." + Repeat('b', n)
    ensures |"." + Repeat('b', n)| > 0 && ("." + Repeat('b', n))[0] == '.'
  {
    var t := "." + Repeat('b', n);
    var x := "a." + Repeat('b', n);
    assert x == "a" + t;
    assert x[0] == 'a' && x[1] == '.';
    forall i | 2 <= i < |x| ensures x[i] == 'b' {
    }
    CleanName(x);
    RFindUnique(x, '.', 1);
    RFindUnique(x, '/', -1);
    SplitExtPlain(x);
    TruncateHugeExtension(x, 1);
    assert t[0] == '.';
  }

  /** A name whose capped form `t` does not start with whitespace sanitises to `t`. */
  lemma SanitizedAs(x: string, t: string)
    requires x != [] && Truncate(LStripDotSpace(ReplaceUnsafe(x))) == t
    requires t != [] && !IsSpace(t[0])
    ensures SanitizeFilename(x) == Success(t)
  {
  }

  /** When the extension is at least 255 characters longer than the head, only the extension is kept. */
  lemma TruncateHugeExtension(s: string, d: nat)
    requires 0 < d < |s| && SplitExt(s) == (s[..d], s[d..])
    requires |s| >= MaxFilenameLength + 2 * d
    ensures Truncate(s) == s[d..]
  {
    TruncateSplits(s);
    assert PyPrefix(s[..d], MaxFilenameLength - (|s| - d)) == [];
  }

  /** Over the cap, `Truncate` keeps the extension and cuts the head to what is left. */
  lemma TruncateSplits(s: string)
    requires |s| > MaxFilenameLength
    ensures var (name, ext) := SplitExt(s);
            Truncate(s) == PyPrefix(name, MaxFilenameLength - |ext|) + ext
  {
  }

  /** A clean name that starts with neither a dot nor a space passes the first two steps unchanged. */
  lemma CleanName(x: string)
    requires x != [] && AllFilenameChars(x) && x[0] != '.' && x[0] != ' '
    ensures LStripDotSpace(ReplaceUnsafe(x)) == x
  {
    assert ReplaceUnsafe(x) == x;
    assert LeadingDotSpace(x) == 0;
  }

  /** `sanitize_filename("...")` falls back to the fixed name. */
  lemma SanitizeFilenameAllDots()
    ensures SanitizeFilename("...") == Success(FallbackFilename)
  {
    assert LeadingDotSpace("...") == 3;
  }

  /**
   * `sanitize_filename("a" * n + ".mp3")` for any `n` over 251, such as 300:
   * the extension is kept and the letters are cut to 251.
   */
  lemma SanitizeFilenameLongName(n: nat)
    requires n > MaxFilenameLength - 4
    ensures SanitizeFilename(Repeat('a', n) + ".mp3") == Success(Repeat('a', 251) + ".mp3")
  {
    LongNameSteps(n);
    SanitizedAs(Repeat('a', n) + ".mp3", Repeat('a', 251) + ".mp3");
  }

  /** The replacement, strip and cap steps on `"a" * n + ".mp3"`. */
  lemma LongNameSteps(n: nat)
    requires n > MaxFilenameLength - 4
    ensures Truncate(LStripDotSpace(ReplaceUnsafe(Repeat('a', n) + ".mp3"))) == Repeat('a', 251) + ".mp3"
  {
    var x := Repeat('a', n) + ".mp3";
    forall i | 0 <= i < |x| ensures IsFilenameChar(x[i]) {
      if i < n { assert x[i] == 'a'; }
    }
    CleanName(x);
    RFindUnique(x, '.', n);
    RFindUnique(x, '/', -1);
    TruncateLong(x);
    assert x[..251] == Repeat('a', 251);
    assert x[n..] == ".mp3";
  }

  /** `"; rm -rf / #.mp3"` becomes `"_ rm -rf _ _.mp3"`: spaces survive, metacharacters do not. */
  lemma SanitizeFilenameShellInput()
    ensures SanitizeFilename("; rm -rf / #.mp3") == Success("_ rm -rf _ _.mp3")
  {
    var r := "_ rm -rf _ _.mp3";
    assert ReplaceUnsafe("; rm -rf / #.mp3") == r;
    ShortCleanName("; rm -rf / #.mp3", r);
  }

  /** A name whose replacement is short, starts with a kept character and is not blank is the result. */
  lemma ShortCleanName(filename: string, r: string)
    requires ReplaceUnsafe(filename) == r && r != []
    requires r[0] != '.' && r[0] != ' ' && !IsSpace(r[0]) && |r| <= MaxFilenameLength
    ensures SanitizeFilename(filename) == Success(r)
  {
    assert LeadingDotSpace(r) == 0;
    assert LStripDotSpace(r) == r;
    assert Truncate(r) == r;
  }

  // ---------------------------------------------------------------------------
  // sanitize_chapter_name
  // ---------------------------------------------------------------------------

  /** The class `[;&|`$(){}[\]<>"\\]` deleted from chapter names. */
  predicate IsChapterMeta(c: char) {
    || c == ';' || c == '&' || c == '|' || c == '`' || c == '$' || c == '(' || c == ')'
    || c == '{' || c == '}' || c == '[' || c == ']' || c == '<' || c == '>' || c == '"'
    || c == '\\'
  }

  /** A character that may appear in a chapter name or tag written to the engine. */
  predicate IsTitleChar(c: char) {
    !IsChapterMeta(c) && !IsControl(c)
  }

  predicate NoMeta(s: string) {
    forall i :: 0 <= i < |s| ==> !IsChapterMeta(s[i])
  }

  predicate NoControl(s: string) {
    forall i :: 0 <= i < |s| ==> !IsControl(s[i])
  }

  predicate AllTitleChars(s: string) {
    forall i :: 0 <= i < |s| ==> IsTitleChar(s[i])
  }

  /** `re.sub(r'[;&|`$(){}[\]<>"\\]', '', s)`. */
  function RemoveMeta(s: string): (r: string)
    ensures |r| <= |s| && NoMeta(r)
    ensures NoControl(s) ==> NoControl(r)
    ensures NoMeta(s) ==> r == s
  {
    if s == [] then []
    else (if IsChapterMeta(s[0]) then [] else [s[0]]) + RemoveMeta(s[1..])
  }

  /** `re.sub(r'[\x00-\x1f\x7f-\x9f]', '', s)`. */
  function RemoveControl(s: string): (r: string)
    ensures |r| <= |s| && NoControl(r)
    ensures NoMeta(s) ==> NoMeta(r)
    ensures NoControl(s) ==> r == s
  {
    if s == [] then []
    else (if IsControl(s[0]) then [] else [s[0]]) + RemoveControl(s[1..])
  }

  /**
   * `sanitize_chapter_name`: delete metacharacters and control characters,
   * cut to 200, strip, and fall back to "Unnamed Chapter" when nothing is left.
   */
  function SanitizeChapterName(name: string): (r: string)
    ensures r != [] && |r| <= MaxChapterNameLength
    ensures AllTitleChars(r)
    ensures !IsSpace(r[0]) && !IsSpace(r[|r| - 1])
  {
    if name == [] then UnnamedChapter
    else
      var t := Take(RemoveControl(RemoveMeta(name)), MaxChapterNameLength);
      if Strip(t) == [] then UnnamedChapter
      else
        assert NoMeta(t) && NoControl(t);
        assert AllTitleChars(Strip(t)) by {
          forall i | 0 <= i < |Strip(t)| ensures IsTitleChar(Strip(t)[i]) {
            assert Strip(t)[i] == t[LeadingSpace(t) + i];
          }
        }
        Strip(t)
  }

  /** Sanitising a chapter name a second time changes nothing. */
  lemma SanitizeChapterNameIdempotent(name: string)
    ensures SanitizeChapterName(SanitizeChapterName(name)) == SanitizeChapterName(name)
  {
    var r := SanitizeChapterName(name);
    assert RemoveMeta(r) == r;
    assert RemoveControl(r) == r;
    assert Take(r, MaxChapterNameLength) == r;
    StripTrimmed(r);
  }

  /**
   * A name that is already clean (title characters only, at most 200 long,
   * no surrounding spaces) is kept as it is: "Chapter 1" stays "Chapter 1".
   */
  lemma SanitizeChapterNameFixedPoint(name: string)
    requires name != [] && |name| <= MaxChapterNameLength
    requires AllTitleChars(name)
    requires !IsSpace(name[0]) && !IsSpace(name[|name| - 1])
    ensures SanitizeChapterName(name) == name
  {
    assert NoMeta(name) && NoControl(name);
    assert RemoveMeta(name) == name;
    assert RemoveControl(name) == name;
    assert Take(name, MaxChapterNameLength) == name;
    StripTrimmed(name);
  }

  /** `re.sub` works character by character, so it distributes over concatenation. */
  lemma {:induction false} RemoveMetaAppend(a: string, b: string)
    ensures RemoveMeta(a + b) == RemoveMeta(a) + RemoveMeta(b)
  {
    if a == [] {
      assert a + b == b;
    } else {
      var h := if IsChapterMeta(a[0]) then [] else [a[0]];
      assert (a + b)[0] == a[0];
      assert (a + b)[1..] == a[1..] + b;
      RemoveMetaAppend(a[1..], b);
      calc {
        RemoveMeta(a + b);
        h + RemoveMeta(a[1..] + b);
        h + (RemoveMeta(a[1..]) + RemoveMeta(b));
        (h + RemoveMeta(a[1..])) + RemoveMeta(b);
      }
    }
  }

  /** Deleting control characters also works character by character. */
  lemma {:induction false} RemoveControlAppend(a: string, b: string)
    ensures RemoveControl(a + b) == RemoveControl(a) + RemoveControl(b)
  {
    if a == [] {
      assert a + b == b;
    } else {
      var h := if IsControl(a[0]) then [] else [a[0]];
      assert (a + b)[0] == a[0];
      assert (a + b)[1..] == a[1..] + b;
      RemoveControlAppend(a[1..], b);
      calc {
        RemoveControl(a + b);
        h + RemoveControl(a[1..] + b);
        h + (RemoveControl(a[1..]) + RemoveControl(b));
        (h + RemoveControl(a[1..])) + RemoveControl(b);
      }
    }
  }

  predicate AllControl(s: string) {
    forall i :: 0 <= i < |s| ==> IsControl(s[i])
  }

  /** Characters that the chapter-name sanitiser deletes: metacharacters and control characters. */
  predicate AllDropped(s: string) {
    forall i :: 0 <= i < |s| ==> IsChapterMeta(s[i]) || IsControl(s[i])
  }

  lemma {:induction false} RemoveAllControl(m: string)
    requires AllControl(m)
    ensures RemoveControl(m) == []
  {
    if m != [] {
      RemoveAllControl(m[1..]);
    }
  }

  /** What survives the metacharacter pass of a dropped run is control characters only. */
  lemma {:induction false} RemoveMetaOfDropped(m: string)
    requires AllDropped(m)
    ensures AllControl(RemoveMeta(m))
  {
    if m != [] {
      RemoveMetaOfDropped(m[1..]);
      var h := if IsChapterMeta(m[0]) then [] else [m[0]];
      assert RemoveMeta(m) == h + RemoveMeta(m[1..]);
      assert AllControl(h);
      forall i | 0 <= i < |RemoveMeta(m)| ensures IsControl(RemoveMeta(m)[i]) {
        if i >= |h| { assert RemoveMeta(m)[i] == RemoveMeta(m[1..])[i - |h|]; }
      }
    }
  }

  /**
   * Metacharacters and control characters are deleted and the rest is kept
   * in order: a name whose remaining text is non-empty, at most 200 long and
   * trimmed comes out as exactly that text.
   */
  lemma SanitizeChapterNameDeletesMeta(name: string)
    requires name != []
    requires RemoveControl(RemoveMeta(name)) != [] && |RemoveControl(RemoveMeta(name))| <= MaxChapterNameLength
    requires !IsSpace(RemoveControl(RemoveMeta(name))[0])
    requires !IsSpace(RemoveControl(RemoveMeta(name))[|RemoveControl(RemoveMeta(name))| - 1])
    ensures SanitizeChapterName(name) == RemoveControl(RemoveMeta(name))
  {
    var k := RemoveControl(RemoveMeta(name));
    assert Take(k, MaxChapterNameLength) == k;
    StripTrimmed(k);
  }

  lemma RemoveMetaOfPieces(a: string, m: string, b: string, n: string)
    requires NoMeta(a) && NoMeta(b)
    ensures RemoveMeta(a + m + b + n) == a + RemoveMeta(m) + b + RemoveMeta(n)
  {
    RemoveMetaAppend(a + m + b, n);
    RemoveMetaAppend(a + m, b);
    RemoveMetaAppend(a, m);
  }

  lemma RemoveControlOfPieces(a: string, m: string, b: string, n: string)
    requires NoControl(a) && NoControl(b) && AllControl(m) && AllControl(n)
    ensures RemoveControl(a + m + b + n) == a + b
  {
    RemoveAllControl(m);
    RemoveAllControl(n);
    RemoveControlAppend(a + m + b, n);
    RemoveControlAppend(a + m, b);
    RemoveControlAppend(a, m);
    assert RemoveControl(a + m) == a;
  }

  lemma TitleCharsAppend(a: string, b: string)
    requires AllTitleChars(a) && AllTitleChars(b)
    ensures AllTitleChars(a + b)
  {
    forall i | 0 <= i < |a + b| ensures IsTitleChar((a + b)[i]) {
      if i >= |a| { assert (a + b)[i] == b[i - |a|]; }
    }
  }

  lemma RemoveDroppedOfPieces(a: string, m: string, b: string, n: string)
    requires NoMeta(a) && NoMeta(b) && NoControl(a) && NoControl(b)
    requires AllDropped(m) && AllDropped(n)
    ensures RemoveControl(RemoveMeta(a + m + b + n)) == a + b
  {
    RemoveMetaOfPieces(a, m, b, n);
    RemoveMetaOfDropped(m);
    RemoveMetaOfDropped(n);
    RemoveControlOfPieces(a, RemoveMeta(m), b, RemoveMeta(n));
  }

  /**
   * Runs of deleted characters between clean text vanish and the text closes
   * up: `a + m + b + n` comes out as `a + b` when `m` and `n` hold only
   * metacharacters and control characters.
   */
  lemma SanitizeChapterNameDropsMeta(a: string, m: string, b: string, n: string)
    requires a != [] && b != [] && |a| + |b| <= MaxChapterNameLength
    requires AllTitleChars(a) && AllTitleChars(b)
    requires !IsSpace(a[0]) && !IsSpace(b[|b| - 1])
    requires AllDropped(m) && AllDropped(n)
    ensures SanitizeChapterName(a + m + b + n) == a + b
  {
    assert NoMeta(a) && NoMeta(b) && NoControl(a) && NoControl(b);
    RemoveDroppedOfPieces(a, m, b, n);
    assert (a + b)[0] == a[0] && (a + b)[|a + b| - 1] == b[|b| - 1];
    SanitizeChapterNameDeletesMeta(a + m + b + n);
  }

  /** "Chapter $(evil)" becomes "Chapter evil". */
  lemma SanitizeChapterNameEvilExample(a: string, m: string, b: string, n: string)
    requires a == "Chapter " && m == "$(" && b == "evil" && n == ")"
    ensures SanitizeChapterName(a + m + b + n) == a + b
  {
    SanitizeChapterNameDropsMeta(a, m, b, n);
  }

  /** "Chapter; rm -rf /" loses its `;` but keeps its `/`, which is not in the deleted class. */
  lemma SanitizeChapterNameSlashExample(a: string, m: string, b: string)
    requires a == "Chapter" && m == ";" && b == " rm -rf /"
    ensures SanitizeChapterName(a + m + b + []) == a + b
  {
    SanitizeChapterNameDropsMeta(a, m, b, []);
  }

  /** "Chapter 1" is kept as it is. */
  lemma SanitizeChapterNameKeepsClean(name: string)
    requires name == "Chapter 1"
    ensures SanitizeChapterName(name) == name
  {
    SanitizeChapterNameFixedPoint(name);
  }

  /** The empty name and a name of spaces both become "Unnamed Chapter". */
  lemma SanitizeChapterNameBlank()
    ensures SanitizeChapterName("") == UnnamedChapter
    ensures SanitizeChapterName("   ") == UnnamedChapter
  {
    var blank := "   ";
    assert IsAllSpace(blank) && NoMeta(blank) && NoControl(blank) by {
      forall i | 0 <= i < |blank| ensures blank[i] == ' ' {}
    }
    assert Take(RemoveControl(RemoveMeta(blank)), MaxChapterNameLength) == blank;
  }

  /** A 300-letter name is cut to its first 200 letters. */
  lemma SanitizeChapterNameLong()
    ensures SanitizeChapterName(seq(300, _ => 'A')) == seq(200, _ => 'A')
  {
    var x := seq(300, _ => 'A');
    assert RemoveMeta(x) == x;
    assert RemoveControl(x) == x;
    var t := seq(200, _ => 'A');
    assert Take(x, MaxChapterNameLength) == t;
    StripTrimmed(t);
  }

  // ---------------------------------------------------------------------------
  // tag-value cleaning in get_file_metadata
  // ---------------------------------------------------------------------------

  /** `re.sub(r'[\x00-\x1f\x7f-\x9f]', '', v)[:500]`. */
  function CleanTagValue(v: string): (r: string)
    ensures |r| <= MaxTagValueLength && NoControl(r)
    ensures |v| <= MaxTagValueLength && NoControl(v) ==> r == v
  {
    Take(RemoveControl(v), MaxTagValueLength)
  }

  /**
   * Control characters are deleted and the other characters kept in order:
   * `a + m + b` with `m` all control characters becomes `a + b` when that fits.
   */
  lemma CleanTagValueDropsControl(a: string, m: string, b: string)
    requires NoControl(a) && NoControl(b) && AllControl(m)
    requires |a| + |b| <= MaxTagValueLength
    ensures CleanTagValue(a + m + b) == a + b
  {
    RemoveControlOfPieces(a, m, b, []);
    assert a + m + b + [] == a + m + b;
  }

  /** `"a\x01b"` becomes `"ab"`: the control character goes, its neighbours stay. */
  lemma CleanTagValueExample(a: string, m: string, b: string)
    requires a == "a" && m == [0x01 as char] && b == "b"
    ensures CleanTagValue(a + m + b) == "ab"
  {
    CleanTagValueDropsControl(a, m, b);
  }

  /** The cut keeps the first 500 characters: whatever follows them is lost. */
  lemma CleanTagValueKeepsPrefix(a: string, b: string)
    requires NoControl(a) && |a| == MaxTagValueLength
    ensures CleanTagValue(a + b) == a
  {
    RemoveControlAppend(a, b);
    assert RemoveControl(a) == a;
    assert (a + RemoveControl(b))[..MaxTagValueLength] == a;
  }
}
