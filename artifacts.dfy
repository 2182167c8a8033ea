/**
 * The three artifacts `create_m4b` hands to ffmpeg: the concat-demuxer file
 * list, the FFMETADATA1 chapter document and the argument vector, together
 * with the reader side each of them is written for.
 */
module Artifacts {
  import opened Wrappers
  import opened Text
  import Sanitize
  import Files
  import Chapters

  // ---------------------------------------------------------------------------
  // Lines
  // ---------------------------------------------------------------------------

  /** A reader's line ends at `\n`, `\r` or NUL. */
  predicate IsLineBreak(c: char) {
    c == '\n' || c == '\r' || c == '\0'
  }

  predicate NoLineBreak(s: string) {
    forall i :: 0 <= i < |s| ==> !IsLineBreak(s[i])
  }

  /** Index of the first line break, or the length when there is none. */
  function FirstNewline(s: string): (k: nat)
    ensures k <= |s|
    ensures forall j :: 0 <= j < k ==> !IsLineBreak(s[j])
    ensures k < |s| ==> IsLineBreak(s[k])
  {
    if s == [] || IsLineBreak(s[0]) then 0 else 1 + FirstNewline(s[1..])
  }

  /** How a line-oriented reader sees a text: the pieces between line breaks, none after a final one. */
  function Lines(s: string): seq<string>
    decreases |s|
  {
    if s == [] then []
    else
      var k := FirstNewline(s);
      if k == |s| then [s] else [s[..k]] + Lines(s[k + 1..])
  }

  /** Writing each line followed by `\n`. */
  function JoinLines(ls: seq<string>): string {
    if ls == [] then [] else ls[0] + "\n" + JoinLines(ls[1..])
  }

  lemma {:induction false} FirstNewlineAfter(l: string, rest: string)
    requires NoLineBreak(l)
    ensures FirstNewline(l + "\n" + rest) == |l|
  {
    if l != [] {
      assert (l + "\n" + rest)[1..] == l[1..] + "\n" + rest;
      FirstNewlineAfter(l[1..], rest);
    }
  }

  /** Lines written one per `\n` are read back exactly, provided none holds a `\n`. */
  lemma {:induction false} LinesJoinLines(ls: seq<string>)
    requires forall i :: 0 <= i < |ls| ==> NoLineBreak(ls[i])
    ensures Lines(JoinLines(ls)) == ls
  {
    if ls != [] {
      var rest := JoinLines(ls[1..]);
      var s := ls[0] + "\n" + rest;
      FirstNewlineAfter(ls[0], rest);
      assert s[..|ls[0]|] == ls[0];
      assert s[|ls[0]| + 1..] == rest;
      LinesJoinLines(ls[1..]);
    }
  }

  // ---------------------------------------------------------------------------
  // Concat list
  // ---------------------------------------------------------------------------

  /**
   * The reader of a concat-list `file` directive: ffmpeg's `av_get_token`
   * with the whitespace terminators. Outside quotes a backslash takes the next
   * character literally, `'` opens a quoted run, whitespace ends the token and
   * every other character (the double quote included) is itself.
   */
  predicate IsTokenSpace(c: char) {
    c == ' ' || c == '\t' || c == '\r' || c == '\n'
  }

  function DecodeUnquoted(s: string): string
    decreases |s|
  {
    if s == [] || IsTokenSpace(s[0]) then []
    else if s[0] == '\\' then (if |s| > 1 then [s[1]] + DecodeUnquoted(s[2..]) else "\\")
    else if s[0] == '\'' then DecodeQuoted(s[1..])
    else [s[0]] + DecodeUnquoted(s[1..])
  }

  /** Inside a quoted run every character up to the closing `'` is itself. */
  function DecodeQuoted(s: string): string
    decreases |s|
  {
    if s == [] then []
    else if s[0] == '\'' then DecodeUnquoted(s[1..])
    else [s[0]] + DecodeQuoted(s[1..])
  }

  /** The path a `file` line names, as the concat demuxer reads it. */
  function ReadFileDirective(line: string): Option<string> {
    if StartsWith(line, "file ") then Some(DecodeUnquoted(line[5..])) else None
  }

  predicate NoApostrophe(p: string) {
    forall i :: 0 <= i < |p| ==> p[i] != '\''
  }

  /** The replacement at main.py:625: every `'` becomes the shell idiom `'"'"'`. */
  function EscapeAsWritten(p: string): (r: string)
    ensures NoApostrophe(p) ==> r == p
    ensures NoLineBreak(p) ==> NoLineBreak(r)
  {
    if p == [] then []
    else (if p[0] == '\'' then "'\"'\"'" else [p[0]]) + EscapeAsWritten(p[1..])
  }

  /** The concat-list line main.py:626 writes for `p`. */
  function ConcatLineAsWritten(p: string): (r: string)
    ensures StartsWith(r, "file '") && r[|r| - 1] == '\''
    ensures NoApostrophe(p) ==> r == "file '" + p + "'"
    ensures NoLineBreak(p) ==> NoLineBreak(r)
  {
    var r := "file '" + EscapeAsWritten(p) + "'";
    assert r[..6] == "file '";
    assert NoLineBreak(p) ==> forall i :: 0 <= i < |r| ==> !IsLineBreak(r[i]) by {
      if NoLineBreak(p) {
        var e := EscapeAsWritten(p);
        forall i | 0 <= i < |r| ensures !IsLineBreak(r[i]) {
          if 6 <= i < 6 + |e| { assert r[i] == e[i - 6]; }
        }
      }
    }
    r
  }

  /** Every `'` becomes `'\''`: close the run, an escaped quote, reopen. */
  function Escape(p: string): (r: string)
    ensures NoApostrophe(p) ==> r == p
    ensures NoLineBreak(p) ==> NoLineBreak(r)
  {
    if p == [] then []
    else (if p[0] == '\'' then "'\\''" else [p[0]]) + Escape(p[1..])
  }

  /** One concat-list line naming `p`. */
  function ConcatLine(p: string): string {
    "file '" + Escape(p) + "'"
  }

  lemma {:induction false} DecodeQuotedEscape(p: string, rest: string)
    ensures DecodeQuoted(Escape(p) + "'" + rest) == p + DecodeUnquoted(rest)
  {
    if p == [] {
      var s := Escape(p) + "'" + rest;
      assert s == "'" + rest;
      assert s[1..] == rest;
    } else {
      var t, e, e1 := "'" + rest, Escape(p), Escape(p[1..]);
      calc {
        DecodeQuoted(e + "'" + rest);
        { assert e + "'" + rest == e + t; }
        DecodeQuoted(e + t);
        { DecodeQuotedEscapeStep(p, t); }
        [p[0]] + DecodeQuoted(e1 + t);
        { assert e1 + "'" + rest == e1 + t; DecodeQuotedEscape(p[1..], rest); }
        [p[0]] + (p[1..] + DecodeUnquoted(rest));
        { assert p == [p[0]] + p[1..]; }
        p + DecodeUnquoted(rest);
      }
    }
  }

  /** Inside a quoted run the escape of `p[0]` reads back as `p[0]`. */
  lemma DecodeQuotedEscapeStep(p: string, t: string)
    requires p != []
    ensures DecodeQuoted(Escape(p) + t) == [p[0]] + DecodeQuoted(Escape(p[1..]) + t)
  {
    var x := Escape(p[1..]) + t;
    if p[0] == '\'' {
      assert Escape(p) + t == "'\\''" + x by {
        assert Escape(p) == "'\\''" + Escape(p[1..]);
      }
      EscapedQuoteRead(x);
    } else {
      assert Escape(p) + t == [p[0]] + x by {
        assert Escape(p) == [p[0]] + Escape(p[1..]);
      }
      DecodeQuotedChar(p[0], x);
    }
  }

  /** Inside a quoted run a character other than `'` is itself. */
  lemma DecodeQuotedChar(c: char, x: string)
    requires c != '\''
    ensures DecodeQuoted([c] + x) == [c] + DecodeQuoted(x)
  {
    assert ([c] + x)[1..] == x;
  }

  /** Inside a quoted run, `'\''` reads as one `'` and leaves the reader inside the run. */
  lemma EscapedQuoteRead(x: string)
    ensures DecodeQuoted("'\\''" + x) == "'" + DecodeQuoted(x)
  {
    var s := "'\\''" + x;
    var s1 := s[1..];
    assert s1 == "\\''" + x;
    assert s1[0] == '\\' && s1[1] == '\'';
    var s2 := s1[2..];
    assert s2 == "'" + x;
    assert s2[1..] == x;
    assert DecodeQuoted(s) == DecodeUnquoted(s1);
    assert DecodeUnquoted(s1) == "'" + DecodeUnquoted(s2);
  }

  /** The corrected line reads back as exactly the path it was written for. */
  lemma ConcatLineRoundTrip(p: string)
    ensures ReadFileDirective(ConcatLine(p)) == Some(p)
  {
    var line := ConcatLine(p);
    var token := line[5..];
    assert token == "'" + Escape(p) + "'";
    assert token[1..] == Escape(p) + "'" + [];
    DecodeQuotedEscape(p, []);
    assert line[..5] == "file ";
    assert DecodeUnquoted(token) == DecodeQuoted(token[1..]);
    assert p + DecodeUnquoted([]) == p;
  }

  /** On a path without `'` both escapes write the same line. */
  lemma AsWrittenAgreesWithoutApostrophe(p: string)
    requires NoApostrophe(p)
    ensures ConcatLineAsWritten(p) == ConcatLine(p)
  {
  }

  lemma {:induction false} EscapeAsWrittenAppend(x: string, y: string)
    ensures EscapeAsWritten(x + y) == EscapeAsWritten(x) + EscapeAsWritten(y)
  {
    if x == [] {
      assert x + y == y;
    } else {
      assert (x + y)[0] == x[0];
      assert (x + y)[1..] == x[1..] + y;
      EscapeAsWrittenAppend(x[1..], y);
    }
  }

  lemma {:induction false} DecodeQuotedPlain(x: string, rest: string)
    requires NoApostrophe(x)
    ensures DecodeQuoted(x + rest) == x + DecodeQuoted(rest)
  {
    if x == [] {
      assert x + rest == rest;
    } else {
      assert (x + rest)[0] == x[0];
      assert (x + rest)[1..] == x[1..] + rest;
      DecodeQuotedPlain(x[1..], rest);
    }
  }

  /** The shell idiom, met inside a quoted run, reads as `""` and leaves the reader outside quotes. */
  lemma ShellIdiomRead(tail: string)
    ensures DecodeQuoted("'\"'\"'" + tail) == "\"\"" + DecodeUnquoted(tail)
  {
    var s0 := "'\"'\"'" + tail;
    var s1 := s0[1..];
    assert s1 == "\"'\"'" + tail;
    var s2 := s1[1..];
    assert s2 == "'\"'" + tail;
    var s3 := s2[1..];
    assert s3 == "\"'" + tail;
    var s4 := s3[1..];
    assert s4 == "'" + tail;
    assert s4[1..] == tail;
    assert DecodeQuoted(s0) == DecodeUnquoted(s1);
    assert DecodeUnquoted(s1) == "\"" + DecodeUnquoted(s2);
    assert DecodeUnquoted(s2) == DecodeQuoted(s3);
    assert DecodeQuoted(s3) == "\"" + DecodeQuoted(s4);
    assert DecodeQuoted(s4) == DecodeUnquoted(tail);
  }

  /**
   * How the reader sees an as-written line: up to the first `'` the path is
   * intact, that `'` comes back as `""`, and the rest is read outside quotes.
   */
  lemma AsWrittenRead(x: string, y: string)
    requires NoApostrophe(x)
    ensures ReadFileDirective(ConcatLineAsWritten(x + "'" + y))
            == Some(x + "\"\"" + DecodeUnquoted(EscapeAsWritten(y) + "'"))
  {
    var tail := EscapeAsWritten(y) + "'";
    var rest := "'\"'\"'" + tail;
    var token := AsWrittenToken(x, y);
    QuotedIdiomRead(x, tail);
  }

  /** A quoted run holding `x` and then the shell idiom reads as `x`, `""`, and the tail outside quotes. */
  lemma QuotedIdiomRead(x: string, tail: string)
    requires NoApostrophe(x)
    ensures DecodeUnquoted("'" + (x + ("'\"'\"'" + tail))) == x + "\"\"" + DecodeUnquoted(tail)
  {
    var rest := "'\"'\"'" + tail;
    var token := "'" + (x + rest);
    assert token[1..] == x + rest;
    DecodeQuotedPlain(x, rest);
    ShellIdiomRead(tail);
    assert x + ("\"\"" + DecodeUnquoted(tail)) == x + "\"\"" + DecodeUnquoted(tail);
  }

  /** The as-written line is `file ` and a token that opens a quoted run holding `x`, then the idiom. */
  lemma AsWrittenToken(x: string, y: string) returns (token: string)
    requires NoApostrophe(x)
    ensures StartsWith(ConcatLineAsWritten(x + "'" + y), "file ")
    ensures token == ConcatLineAsWritten(x + "'" + y)[5..]
    ensures token == "'" + (x + ("'\"'\"'" + (EscapeAsWritten(y) + "'")))
  {
    var e := EscapeAsWritten(x + "'" + y);
    var line := ConcatLineAsWritten(x + "'" + y);
    assert line == "file " + ("'" + e + "'");
    token := line[5..];
    assert line[..5] == "file ";
    AsWrittenEscape(x, y);
  }

  lemma AsWrittenEscape(x: string, y: string)
    requires NoApostrophe(x)
    ensures EscapeAsWritten(x + "'" + y) == x + ("'\"'\"'" + EscapeAsWritten(y))
  {
    assert x + "'" + y == x + ("'" + y);
    EscapeAsWrittenAppend(x, "'" + y);
    EscapeAsWrittenAppend("'", y);
    assert EscapeAsWritten("'") == "'\"'\"'";
  }

  /**
   * The as-written line never reads back as a path holding `'`: at the first
   * `'` the reader produces `"` instead.
   */
  lemma AsWrittenMisreadsApostrophe(p: string, k: nat)
    requires k < |p| && p[k] == '\'' && NoApostrophe(p[..k])
    ensures ReadFileDirective(ConcatLineAsWritten(p)) != Some(p)
  {
    assert p == p[..k] + "'" + p[k + 1..];
    AsWrittenRead(p[..k], p[k + 1..]);
  }

  /** `/a'b` is read back as `/a""b`. */
  lemma AsWrittenExample(p: string)
    requires p == "/a'b"
    ensures ReadFileDirective(ConcatLineAsWritten(p)) == Some("/a\"\"b")
  {
    assert p == "/a" + "'" + "b";
    AsWrittenRead("/a", "b");
    var t := EscapeAsWritten("b") + "'";
    assert t == "b'";
    assert t[0] == 'b' && t[1..] == "'";
    assert DecodeUnquoted(t) == "b" + DecodeUnquoted("'");
    assert DecodeUnquoted("'") == DecodeQuoted([]) == [];
    assert "/a" + "\"\"" + "b" == "/a\"\"b";
  }

  /** The whole file list as main.py:618-626 writes it: one as-written line per path. */
  function ConcatList(paths: seq<string>): string {
    JoinLines(seq(|paths|, i requires 0 <= i < |paths| => ConcatLineAsWritten(paths[i])))
  }

  /** The file list with the corrected escape: one `ConcatLine` per path. */
  function CorrectedConcatList(paths: seq<string>): string {
    JoinLines(seq(|paths|, i requires 0 <= i < |paths| => ConcatLine(paths[i])))
  }

  lemma {:induction false} JoinLinesSnoc(ls: seq<string>, l: string)
    ensures JoinLines(ls + [l]) == JoinLines(ls) + l + "\n"
  {
    if ls == [] {
      assert ls + [l] == [l];
    } else {
      assert (ls + [l])[1..] == ls[1..] + [l];
      JoinLinesSnoc(ls[1..], l);
    }
  }

  lemma ConcatListSnoc(paths: seq<string>, i: nat)
    requires i < |paths|
    ensures ConcatList(paths[..i + 1]) == ConcatList(paths[..i]) + ConcatLineAsWritten(paths[i]) + "\n"
  {
    var ls := seq(i, k requires 0 <= k < i => ConcatLineAsWritten(paths[k]));
    assert seq(i + 1, k requires 0 <= k < i + 1 => ConcatLineAsWritten(paths[..i + 1][k]))
           == ls + [ConcatLineAsWritten(paths[i])];
    assert seq(i, k requires 0 <= k < i => ConcatLineAsWritten(paths[..i][k])) == ls;
    JoinLinesSnoc(ls, ConcatLineAsWritten(paths[i]));
  }

  /**
   * The concat-list loop: refuse the whole list if any file fails the safety
   * gate, otherwise write one `file` line per resolved path, in order.
   */
  method WriteConcatList(files: seq<Files.Entry>, absPaths: seq<string>) returns (r: Option<string>)
    requires |files| == |absPaths|
    ensures r.None? <==> exists i :: 0 <= i < |files| && !Files.ValidateFileSafety(files[i])
    ensures r.Some? ==> r.value == ConcatList(absPaths)
  {
    var text := "";
    for i := 0 to |files|
      invariant text == ConcatList(absPaths[..i])
      invariant forall j :: 0 <= j < i ==> Files.ValidateFileSafety(files[j])
    {
      if !Files.ValidateFileSafety(files[i]) {
        return None;
      }
      ConcatListSnoc(absPaths, i);
      text := text + ConcatLineAsWritten(absPaths[i]) + "\n";
    }
    assert absPaths[..|absPaths|] == absPaths;
    return Some(text);
  }

  /** The concat list splits into one line per path, provided no path holds a line break. */
  lemma ConcatListLines(paths: seq<string>)
    requires forall i :: 0 <= i < |paths| ==> NoLineBreak(paths[i])
    ensures Lines(ConcatList(paths)) == seq(|paths|, i requires 0 <= i < |paths| => ConcatLineAsWritten(paths[i]))
  {
    var ls := seq(|paths|, i requires 0 <= i < |paths| => ConcatLineAsWritten(paths[i]));
    assert forall i :: 0 <= i < |paths| ==> NoLineBreak(ls[i]);
    LinesJoinLines(ls);
  }

  /**
   * The concat demuxer reads the list as written back as exactly the paths,
   * in order, provided no path holds a line break or a `'`.
   */
  lemma ConcatListReadsBack(paths: seq<string>)
    requires forall i :: 0 <= i < |paths| ==> NoLineBreak(paths[i]) && NoApostrophe(paths[i])
    ensures |Lines(ConcatList(paths))| == |paths|
    ensures forall i :: 0 <= i < |paths| ==> ReadFileDirective(Lines(ConcatList(paths))[i]) == Some(paths[i])
  {
    ConcatListLines(paths);
    forall i | 0 <= i < |paths|
      ensures ReadFileDirective(ConcatLineAsWritten(paths[i])) == Some(paths[i])
    {
      AsWrittenAgreesWithoutApostrophe(paths[i]);
      ConcatLineRoundTrip(paths[i]);
    }
  }

  /** A path holding `'` is never read back from the list as written. */
  lemma ConcatListMisreadsApostrophe(paths: seq<string>, i: nat, k: nat)
    requires forall j :: 0 <= j < |paths| ==> NoLineBreak(paths[j])
    requires i < |paths| && k < |paths[i]| && paths[i][k] == '\'' && NoApostrophe(paths[i][..k])
    ensures |Lines(ConcatList(paths))| == |paths|
    ensures ReadFileDirective(Lines(ConcatList(paths))[i]) != Some(paths[i])
  {
    ConcatListLines(paths);
    AsWrittenMisreadsApostrophe(paths[i], k);
  }

  /**
   * The list with the corrected escape reads back as exactly the paths, in
   * order, whatever quotes they hold, provided no path holds a line break.
   */
  lemma CorrectedConcatListReadsBack(paths: seq<string>)
    requires forall i :: 0 <= i < |paths| ==> NoLineBreak(paths[i])
    ensures |Lines(CorrectedConcatList(paths))| == |paths|
    ensures forall i :: 0 <= i < |paths| ==> ReadFileDirective(Lines(CorrectedConcatList(paths))[i]) == Some(paths[i])
  {
    var ls := seq(|paths|, i requires 0 <= i < |paths| => ConcatLine(paths[i]));
    forall i | 0 <= i < |paths|
      ensures NoLineBreak(ls[i])
    {
      assert ls[i] == "file '" + Escape(paths[i]) + "'";
    }
    LinesJoinLines(ls);
    forall i | 0 <= i < |paths|
      ensures ReadFileDirective(ls[i]) == Some(paths[i])
    {
      ConcatLineRoundTrip(paths[i]);
    }
  }

  /** A one-path list is that path's line and a line break. */
  lemma ConcatListSingle(p: string)
    ensures ConcatList([p]) == ConcatLineAsWritten(p) + "\n"
  {
    var l := ConcatLineAsWritten(p);
    assert seq(1, i requires 0 <= i < 1 => ConcatLineAsWritten([p][i])) == [l];
    assert [l][1..] == [];
    assert JoinLines([l]) == l + "\n" + [];
  }

  /** The safety gate passes a name holding a line break. */
  lemma LineBreakNamePasses(name: string)
    requires name == "a\nfile b.mp3"
    ensures Files.ValidateFileSafety(Files.Entry(name, true, true, 1))
  {
  }

  /** An unquoted token that runs into a stray `'` at its end reads as the token. */
  lemma {:induction false} DecodeUnquotedTrailingQuote(s: string)
    requires forall i :: 0 <= i < |s| ==> !IsTokenSpace(s[i]) && s[i] != '\\' && s[i] != '\''
    ensures DecodeUnquoted(s + "'") == s
  {
    if s == [] {
      assert DecodeUnquoted("'") == DecodeQuoted([]);
    } else {
      assert (s + "'")[1..] == s[1..] + "'";
      DecodeUnquotedTrailingQuote(s[1..]);
    }
  }

  /** A path whose line holds one line break makes a one-path list of two lines. */
  lemma ConcatListSplits(p: string, x: string, y: string)
    requires NoApostrophe(p) && NoLineBreak(x) && NoLineBreak(y)
    requires "file '" + p + "'" == x + "\n" + y
    ensures Lines(ConcatList([p])) == [x, y]
  {
    ConcatListSingle(p);
    assert [x, y][1..] == [y] && [y][1..] == [];
    assert JoinLines([y]) == y + "\n" + JoinLines([]);
    assert JoinLines([x, y]) == x + "\n" + JoinLines([y]);
    assert x + "\n" + (y + "\n" + []) == x + "\n" + y + "\n";
    assert NoLineBreak([x, y][0]) && NoLineBreak([x, y][1]);
    LinesJoinLines([x, y]);
  }

  /** The path of a name holding a line break splits its list into two lines. */
  lemma LineBreakPathSplits(path: string)
    requires path == "/books/" + "a\nfile b.mp3"
    ensures Lines(ConcatList([path])) == ["file '/books/a", "file b.mp3'"]
  {
    var x, y := "file '/books/a", "file b.mp3'";
    assert path == "/books/" + "a" + "\n" + "file b.mp3";
    assert x == "file '" + "/books/" + "a";
    assert y == "file b.mp3" + "'";
    assert "file '" + path + "'" == x + "\n" + y;
    assert NoApostrophe(path);
    assert NoLineBreak(x) && NoLineBreak(y);
    ConcatListSplits(path, x, y);
  }

  /** The second line of that list names `b.mp3`. */
  lemma InjectedLineReads(y: string)
    requires y == "file b.mp3'"
    ensures ReadFileDirective(y) == Some("b.mp3")
  {
    assert y[5..] == "b.mp3" + "'";
    DecodeUnquotedTrailingQuote("b.mp3");
  }

  /**
   * The safety gate lets a line break through: a file named `a`, newline,
   * `file b.mp3` passes it, and its one path becomes two `file` lines, the
   * second naming `b.mp3`.
   */
  lemma LineBreakNameAddsDirective(name: string, path: string)
    requires name == "a\nfile b.mp3" && path == "/books/" + name
    ensures Files.ValidateFileSafety(Files.Entry(name, true, true, 1))
    ensures Lines(ConcatList([path])) == ["file '/books/a", "file b.mp3'"]
    ensures ReadFileDirective(Lines(ConcatList([path]))[1]) == Some("b.mp3")
  {
    LineBreakNamePasses(name);
    LineBreakPathSplits(path);
    InjectedLineReads(Lines(ConcatList([path]))[1]);
  }

  // ---------------------------------------------------------------------------
  // FFMETADATA1 chapter document
  // ---------------------------------------------------------------------------

  /** `int(t * 1000)` for a time that is never negative: whole milliseconds. */
  function Ms(t: real): int {
    (t * 1000.0).Floor
  }

  /** A `key=value` line of the document. */
  function TagLine(key: string, value: string): string {
    key + "=" + value
  }

  /** The global section, given the already sanitised title, artist and genre. */
  function HeaderLines(title: string, artist: string, genre: string): seq<string> {
    [ ";FFMETADATA1",
      TagLine("title", title),
      TagLine("artist", artist),
      TagLine("album", title),
      TagLine("genre", genre),
      "media_type=2" ]
  }

  function ChapterLines(c: Chapters.Chapter): seq<string> {
    [ "[CHAPTER]",
      "TIMEBASE=1/1000",
      TagLine("START", IntToString(Ms(c.start))),
      TagLine("END", IntToString(Ms(c.end))),
      TagLine("title", c.title) ]
  }

  function ChapterSection(cs: seq<Chapters.Chapter>): seq<string> {
    if cs == [] then [] else ChapterLines(cs[0]) + ChapterSection(cs[1..])
  }

  function DocumentLines(title: string, artist: string, genre: string, cs: seq<Chapters.Chapter>): seq<string> {
    HeaderLines(Sanitize.SanitizeChapterName(title), Sanitize.SanitizeChapterName(artist),
                Sanitize.SanitizeChapterName(genre))
    + ChapterSection(cs)
  }

  /** The chapter document as written to the chapter list file. */
  function ChapterDocument(title: string, artist: string, genre: string, cs: seq<Chapters.Chapter>): string {
    JoinLines(DocumentLines(title, artist, genre, cs))
  }

  /**
   * The document opens with the FFMETADATA1 header and the sanitised book
   * title, and every line, the last included, ends with a line break.
   */
  lemma ChapterDocumentFrame(title: string, artist: string, genre: string, cs: seq<Chapters.Chapter>)
    ensures var r := ChapterDocument(title, artist, genre, cs);
            StartsWith(r, ";FFMETADATA1\n" + TagLine("title", Sanitize.SanitizeChapterName(title)) + "\n")
            && r != [] && r[|r| - 1] == '\n'
  {
    var ls := DocumentLines(title, artist, genre, cs);
    HeaderFirstLines(Sanitize.SanitizeChapterName(title), Sanitize.SanitizeChapterName(artist),
                     Sanitize.SanitizeChapterName(genre), ChapterSection(cs));
    JoinLinesHead(ls);
    JoinLinesEndsWithBreak(ls);
  }

  lemma HeaderFirstLines(t: string, a: string, g: string, section: seq<string>)
    ensures var ls := HeaderLines(t, a, g) + section;
            |ls| >= 2 && ls[0] == ";FFMETADATA1" && ls[1] == TagLine("title", t)
  {
  }

  /** Joining two or more lines begins with the first two, each with its break. */
  lemma JoinLinesHead(ls: seq<string>)
    requires |ls| >= 2
    ensures StartsWith(JoinLines(ls), ls[0] + "\n" + ls[1] + "\n")
  {
    assert ls[1..][0] == ls[1] && ls[1..][1..] == ls[2..];
    TwoLinesPrefix(ls[0], ls[1], JoinLines(ls[2..]));
  }

  lemma TwoLinesPrefix(a: string, b: string, j: string)
    ensures StartsWith(a + "\n" + (b + "\n" + j), a + "\n" + b + "\n")
  {
    var h := a + "\n" + b + "\n";
    assert a + "\n" + (b + "\n" + j) == h + j;
    assert (h + j)[..|h|] == h;
  }

  /** Joined lines end with a line break. */
  lemma {:induction false} JoinLinesEndsWithBreak(ls: seq<string>)
    requires ls != []
    ensures JoinLines(ls) != [] && JoinLines(ls)[|JoinLines(ls)| - 1] == '\n'
  {
    if ls[1..] != [] {
      JoinLinesEndsWithBreak(ls[1..]);
    }
  }

  lemma {:induction false} ChapterSectionLength(cs: seq<Chapters.Chapter>)
    ensures |ChapterSection(cs)| == 5 * |cs|
  {
    if cs != [] {
      ChapterSectionLength(cs[1..]);
    }
  }

  /** Line `n` of chapter `i` sits at `5 * i + n` of the chapter section. */
  lemma ChapterLineAt(cs: seq<Chapters.Chapter>, i: nat, n: nat)
    requires i < |cs| && n < 5
    ensures 5 * i + n < |ChapterSection(cs)|
    ensures ChapterSection(cs)[5 * i + n] == ChapterLines(cs[i])[n]
  {
    var bs := ChapterBlocks(cs);
    SectionIsFlatten(cs);
    assert bs[i] == ChapterLines(cs[i]);
    FlattenAt(bs, i, n);
  }

  /** The chapters' line blocks, in chapter order. */
  function ChapterBlocks(cs: seq<Chapters.Chapter>): (bs: seq<seq<string>>)
    ensures |bs| == |cs| && forall j :: 0 <= j < |bs| ==> |bs[j]| == 5
  {
    seq(|cs|, j requires 0 <= j < |cs| => ChapterLines(cs[j]))
  }

  function Flatten(bs: seq<seq<string>>): seq<string> {
    if bs == [] then [] else bs[0] + Flatten(bs[1..])
  }

  lemma {:induction false} SectionIsFlatten(cs: seq<Chapters.Chapter>)
    ensures ChapterSection(cs) == Flatten(ChapterBlocks(cs))
  {
    if cs != [] {
      SectionIsFlatten(cs[1..]);
      assert ChapterBlocks(cs)[1..] == ChapterBlocks(cs[1..]);
    }
  }

  /** In a run of five-line blocks, line `n` of block `i` sits at `5 * i + n`. */
  lemma {:induction false} FlattenAt(bs: seq<seq<string>>, i: nat, n: nat)
    requires forall j :: 0 <= j < |bs| ==> |bs[j]| == 5
    requires i < |bs| && n < 5
    ensures 5 * i + n < |Flatten(bs)| && Flatten(bs)[5 * i + n] == bs[i][n]
  {
    var rest := Flatten(bs[1..]);
    if i == 0 {
      IndexInPrefix(bs[0], rest, n);
    } else {
      FlattenAt(bs[1..], i - 1, n);
      BlockStep(Flatten(bs), bs[0], rest, i, n);
    }
  }

  /** Past a five-line block, position `5 * i + n` is position `5 * (i - 1) + n` of the rest. */
  lemma BlockStep(sec: seq<string>, l0: seq<string>, rest: seq<string>, i: nat, n: nat)
    requires sec == l0 + rest && |l0| == 5 && 0 < i && 5 * (i - 1) + n < |rest|
    ensures 5 * i + n < |sec| && sec[5 * i + n] == rest[5 * (i - 1) + n]
  {
  }

  lemma IndexInPrefix<T>(a: seq<T>, b: seq<T>, k: nat)
    requires k < |a|
    ensures (a + b)[k] == a[k]
  {
  }

  lemma IndexPastPrefix<T>(a: seq<T>, b: seq<T>, k: nat)
    requires |a| <= k < |a| + |b|
    ensures (a + b)[k] == b[k - |a|]
  {
  }

  /** A sanitised value never breaks its line. */
  lemma TitleCharsNoLineBreak(key: string, v: string)
    requires NoLineBreak(key) && Sanitize.AllTitleChars(v)
    ensures NoLineBreak(TagLine(key, v))
  {
    var l := TagLine(key, v);
    forall i | 0 <= i < |l|
      ensures !IsLineBreak(l[i])
    {
      if i > |key| {
        assert l[i] == v[i - |key| - 1];
        assert Sanitize.IsTitleChar(v[i - |key| - 1]);
      }
    }
  }

  lemma NumberNoLineBreak(key: string, n: int)
    requires NoLineBreak(key)
    ensures NoLineBreak(TagLine(key, IntToString(n)))
  {
  }

  lemma HeaderNoLineBreak(title: string, artist: string, genre: string, j: nat)
    requires j < 6
    requires Sanitize.AllTitleChars(title) && Sanitize.AllTitleChars(artist) && Sanitize.AllTitleChars(genre)
    ensures NoLineBreak(HeaderLines(title, artist, genre)[j])
  {
    var h := HeaderLines(title, artist, genre);
    if j == 1 {
      TitleCharsNoLineBreak("title", title);
    } else if j == 3 {
      TitleCharsNoLineBreak("album", title);
    } else if j == 2 {
      TitleCharsNoLineBreak("artist", artist);
    } else if j == 4 {
      TitleCharsNoLineBreak("genre", genre);
    } else if j == 0 {
      assert h[0] == ";FFMETADATA1";
    } else {
      assert h[5] == "media_type=2";
    }
  }

  lemma {:induction false} SectionNoLineBreak(cs: seq<Chapters.Chapter>)
    requires forall i :: 0 <= i < |cs| ==> Sanitize.AllTitleChars(cs[i].title)
    ensures forall j :: 0 <= j < |ChapterSection(cs)| ==> NoLineBreak(ChapterSection(cs)[j])
  {
    if cs != [] {
      SectionNoLineBreak(cs[1..]);
      NumberNoLineBreak("START", Ms(cs[0].start));
      NumberNoLineBreak("END", Ms(cs[0].end));
      TitleCharsNoLineBreak("title", cs[0].title);
      var ls := ChapterLines(cs[0]);
      assert forall j :: 0 <= j < 5 ==> NoLineBreak(ls[j]);
    }
  }

  /**
   * Written with chapter titles free of metacharacters and control characters
   * (every name `get_chapter_name` returns), the document reads back as six
   * header lines and five lines per chapter.
   */
  lemma DocumentReadsBack(title: string, artist: string, genre: string, cs: seq<Chapters.Chapter>)
    requires forall i :: 0 <= i < |cs| ==> Sanitize.AllTitleChars(cs[i].title)
    ensures Lines(ChapterDocument(title, artist, genre, cs)) == DocumentLines(title, artist, genre, cs)
    ensures |DocumentLines(title, artist, genre, cs)| == 6 + 5 * |cs|
  {
    var st, sa, sg := Sanitize.SanitizeChapterName(title), Sanitize.SanitizeChapterName(artist),
                      Sanitize.SanitizeChapterName(genre);
    var h := HeaderLines(st, sa, sg);
    var c := ChapterSection(cs);
    SectionNoLineBreak(cs);
    ChapterSectionLength(cs);
    assert forall j :: 0 <= j < |h + c| ==> NoLineBreak((h + c)[j]) by {
      forall j | 0 <= j < |h + c|
        ensures NoLineBreak((h + c)[j])
      {
        if j >= 6 {
          assert (h + c)[j] == c[j - 6];
        } else {
          assert (h + c)[j] == h[j];
          HeaderNoLineBreak(st, sa, sg, j);
        }
      }
    }
    LinesJoinLines(h + c);
  }

  /** Index of the first `c`, or the length when there is none. */
  function IndexOf(s: string, c: char): (k: nat)
    ensures k <= |s|
    ensures forall j :: 0 <= j < k ==> s[j] != c
    ensures k < |s| ==> s[k] == c
  {
    if s == [] || s[0] == c then 0 else 1 + IndexOf(s[1..], c)
  }

  /** How the metadata reader splits a `key=value` line: at the first `=`. */
  function ParseTagLine(line: string): Option<(string, string)> {
    var k := IndexOf(line, '=');
    if k < |line| then Some((line[..k], line[k + 1..])) else None
  }

  lemma {:induction false} IndexOfAfter(key: string, rest: string)
    requires forall i :: 0 <= i < |key| ==> key[i] != '='
    ensures IndexOf(key + "=" + rest, '=') == |key|
  {
    if key != [] {
      assert (key + "=" + rest)[1..] == key[1..] + "=" + rest;
      IndexOfAfter(key[1..], rest);
    }
  }

  /** A line written as `key=value` reads back as that key and value, whatever the value holds. */
  lemma TagLineReadsBack(key: string, value: string)
    requires forall i :: 0 <= i < |key| ==> key[i] != '='
    ensures ParseTagLine(TagLine(key, value)) == Some((key, value))
  {
    var l := TagLine(key, value);
    IndexOfAfter(key, value);
    assert l[..|key|] == key;
    assert l[|key| + 1..] == value;
  }

  /** The header is six lines, followed by five per chapter. */
  lemma DocumentLength(title: string, artist: string, genre: string, cs: seq<Chapters.Chapter>)
    ensures |DocumentLines(title, artist, genre, cs)| == 6 + 5 * |cs|
  {
    ChapterSectionLength(cs);
    var h := HeaderLines(Sanitize.SanitizeChapterName(title), Sanitize.SanitizeChapterName(artist),
                         Sanitize.SanitizeChapterName(genre));
    assert |h| == 6;
  }

  /** Line `n` of chapter `i` in the whole document. */
  lemma DocumentChapterLine(title: string, artist: string, genre: string, cs: seq<Chapters.Chapter>, i: nat, n: nat)
    requires i < |cs| && n < 5
    ensures 6 + 5 * i + n < |DocumentLines(title, artist, genre, cs)|
    ensures DocumentLines(title, artist, genre, cs)[6 + 5 * i + n] == ChapterLines(cs[i])[n]
  {
    ChapterLineAt(cs, i, n);
    var h := HeaderLines(Sanitize.SanitizeChapterName(title), Sanitize.SanitizeChapterName(artist),
                         Sanitize.SanitizeChapterName(genre));
    var c := ChapterSection(cs);
    assert |h| == 6;
    assert DocumentLines(title, artist, genre, cs) == h + c;
    assert (h + c)[6 + 5 * i + n] == c[5 * i + n];
  }

  /** What the metadata reader takes from a chapter's START, END and title lines. */
  lemma ChapterReads(c: Chapters.Chapter)
    ensures ParseTagLine(ChapterLines(c)[2]) == Some(("START", IntToString(Ms(c.start))))
    ensures ParseTagLine(ChapterLines(c)[3]) == Some(("END", IntToString(Ms(c.end))))
    ensures ParseTagLine(ChapterLines(c)[4]) == Some(("title", c.title))
  {
    TagLineReadsBack("START", IntToString(Ms(c.start)));
    TagLineReadsBack("END", IntToString(Ms(c.end)));
    TagLineReadsBack("title", c.title);
  }

  /** Flooring to milliseconds keeps order. */
  lemma MsMonotone(a: real, b: real)
    requires a <= b
    ensures Ms(a) <= Ms(b)
  {
    assert a * 1000.0 <= b * 1000.0;
  }

  /** The first chapter of a timeline that starts at 0 s reads back as starting at 0 ms. */
  lemma FirstStartReadsZero(title: string, artist: string, genre: string, cs: seq<Chapters.Chapter>)
    requires |cs| > 0 && cs[0].start == 0.0
    ensures ParseTagLine(DocumentLines(title, artist, genre, cs)[8]) == Some(("START", "0"))
  {
    DocumentChapterLine(title, artist, genre, cs, 0, 2);
    ChapterReads(cs[0]);
    assert Ms(cs[0].start) == 0;
  }

  /** Where one chapter ends at the next one's start, both lines carry the same millisecond value. */
  lemma EndMeetsStart(title: string, artist: string, genre: string, cs: seq<Chapters.Chapter>, i: nat)
    requires i + 1 < |cs| && cs[i].end == cs[i + 1].start
    ensures var d, v := DocumentLines(title, artist, genre, cs), IntToString(Ms(cs[i].end));
            6 + 5 * (i + 1) + 2 < |d|
            && ParseTagLine(d[6 + 5 * i + 3]) == Some(("END", v))
            && ParseTagLine(d[6 + 5 * (i + 1) + 2]) == Some(("START", v))
  {
    EndReadsBack(title, artist, genre, cs, i);
    StartReadsBack(title, artist, genre, cs, i + 1);
    assert Ms(cs[i + 1].start) == Ms(cs[i].end);
  }

  /** Each chapter's END line reads back as its end in milliseconds. */
  lemma EndReadsBack(title: string, artist: string, genre: string, cs: seq<Chapters.Chapter>, i: nat)
    requires i < |cs|
    ensures var d := DocumentLines(title, artist, genre, cs);
            6 + 5 * i + 3 < |d| && ParseTagLine(d[6 + 5 * i + 3]) == Some(("END", IntToString(Ms(cs[i].end))))
  {
    ChapterLineReads(title, artist, genre, cs, i, 3);
    ChapterReads(cs[i]);
  }

  /** Each chapter's START line reads back as its start in milliseconds. */
  lemma StartReadsBack(title: string, artist: string, genre: string, cs: seq<Chapters.Chapter>, i: nat)
    requires i < |cs|
    ensures var d := DocumentLines(title, artist, genre, cs);
            6 + 5 * i + 2 < |d| && ParseTagLine(d[6 + 5 * i + 2]) == Some(("START", IntToString(Ms(cs[i].start))))
  {
    ChapterLineReads(title, artist, genre, cs, i, 2);
    ChapterReads(cs[i]);
  }

  /** What the reader takes from line `n` of chapter `i` is what it takes from that chapter's own line `n`. */
  lemma ChapterLineReads(title: string, artist: string, genre: string, cs: seq<Chapters.Chapter>, i: nat, n: nat)
    requires i < |cs| && n < 5
    ensures 6 + 5 * i + n < |DocumentLines(title, artist, genre, cs)|
    ensures ParseTagLine(DocumentLines(title, artist, genre, cs)[6 + 5 * i + n]) == ParseTagLine(ChapterLines(cs[i])[n])
  {
    DocumentChapterLine(title, artist, genre, cs, i, n);
  }

  /** Each chapter's title line reads back as that chapter's title. */
  lemma TitleReadsBack(title: string, artist: string, genre: string, cs: seq<Chapters.Chapter>, i: nat)
    requires i < |cs|
    ensures var d := DocumentLines(title, artist, genre, cs);
            6 + 5 * i + 4 < |d| && ParseTagLine(d[6 + 5 * i + 4]) == Some(("title", cs[i].title))
  {
    var d := DocumentLines(title, artist, genre, cs);
    DocumentChapterLine(title, artist, genre, cs, i, 4);
    ChapterReads(cs[i]);
    assert d[6 + 5 * i + 4] == ChapterLines(cs[i])[4];
  }

  /**
   * The document of a timeline, as the metadata reader sees it: the first
   * chapter starts at 0 ms, each chapter's END carries the same value as the
   * next chapter's START, START never exceeds END, and each chapter's title
   * reads back unchanged.
   */
  lemma TimelineDocument(title: string, artist: string, genre: string, cs: seq<Chapters.Chapter>)
    requires |cs| > 0 ==> cs[0].start == 0.0
    requires forall i, k :: 0 <= i < |cs| && 0 <= k < |cs| && k == i + 1 ==> cs[i].end == cs[k].start
    requires forall i :: 0 <= i < |cs| ==> cs[i].start <= cs[i].end
    ensures |DocumentLines(title, artist, genre, cs)| == 6 + 5 * |cs|
    ensures |cs| > 0 ==> ParseTagLine(DocumentLines(title, artist, genre, cs)[8]) == Some(("START", "0"))
    ensures forall i :: 0 <= i < |cs| - 1 ==>
              var d, v := DocumentLines(title, artist, genre, cs), IntToString(Ms(cs[i].end));
              ParseTagLine(d[6 + 5 * i + 3]) == Some(("END", v))
              && ParseTagLine(d[6 + 5 * (i + 1) + 2]) == Some(("START", v))
    ensures forall i :: 0 <= i < |cs| ==> Ms(cs[i].start) <= Ms(cs[i].end)
    ensures forall i :: 0 <= i < |cs| ==>
              ParseTagLine(DocumentLines(title, artist, genre, cs)[6 + 5 * i + 4]) == Some(("title", cs[i].title))
  {
    DocumentLength(title, artist, genre, cs);
    if |cs| > 0 {
      FirstStartReadsZero(title, artist, genre, cs);
    }
    forall i | 0 <= i < |cs| - 1
      ensures var d, v := DocumentLines(title, artist, genre, cs), IntToString(Ms(cs[i].end));
              ParseTagLine(d[6 + 5 * i + 3]) == Some(("END", v))
              && ParseTagLine(d[6 + 5 * (i + 1) + 2]) == Some(("START", v))
    {
      EndMeetsStart(title, artist, genre, cs, i);
    }
    forall i | 0 <= i < |cs|
      ensures Ms(cs[i].start) <= Ms(cs[i].end)
    {
      MsMonotone(cs[i].start, cs[i].end);
    }
    forall i | 0 <= i < |cs|
      ensures ParseTagLine(DocumentLines(title, artist, genre, cs)[6 + 5 * i + 4]) == Some(("title", cs[i].title))
    {
      TitleReadsBack(title, artist, genre, cs, i);
    }
  }

  // ---------------------------------------------------------------------------
  // ffmpeg argument vector
  // ---------------------------------------------------------------------------

  /** `bool(cover_path)`: extraction returned a path. */
  predicate CoverGiven(cover: Option<string>) {
    cover.Some? && cover.value != []
  }

  /** `2 if cover_path else 1`. */
  function MetadataInputIndex(cover: Option<string>): nat {
    if CoverGiven(cover) then 2 else 1
  }

  function AudioOptions(cpuCount: nat, bitrate: nat): seq<string> {
    [ "-c:a", "aac", "-aac_coder", "fast", "-threads:a", NatToString(cpuCount),
      "-b:a", NatToString(bitrate) + "k", "-ac", "2", "-ar", "44100" ]
  }

  function EncodingOptions(cover: Option<string>, cpuCount: nat, bitrate: nat): seq<string> {
    if CoverGiven(cover) then
      ["-map", "0:a", "-map", "1:v"] + AudioOptions(cpuCount, bitrate)
      + ["-c:v", "copy", "-disposition:v:0", "attached_pic"]
    else AudioOptions(cpuCount, bitrate)
  }

  /** The trailing options, given the already sanitised title, artist and genre. */
  function OutputOptions(t: string, a: string, g: string): seq<string> {
    [ "-movflags", "+faststart",
      "-metadata", TagLine("title", t), "-metadata", TagLine("artist", a),
      "-metadata", TagLine("album", t), "-metadata", TagLine("genre", g),
      "-metadata", "media_type=2", "-f", "ipod" ]
  }

  function SafeTitle(s: string): string {
    Sanitize.SanitizeChapterName(s)
  }

  /**
   * The ffmpeg command line of `create_m4b`. The cover is an input only when
   * it still exists on disk (`coverExists`), while the metadata input index
   * and the stream maps look only at whether a cover path was returned.
   */
  function FfmpegArgs(cpuCount: nat, fileList: string, cover: Option<string>, coverExists: bool,
                      chapterList: string, bitrate: nat, title: string, artist: string, genre: string,
                      output: string): seq<string>
  {
    FfmpegHead(cpuCount)
    + (["-i", fileList]
    + (CoverInput(cover, coverExists)
    + (["-i", chapterList]
    + (FfmpegOptions(cover, cpuCount, bitrate, title, artist, genre)
    + [output]))))
  }

  /** The cover is an input only when one was returned and its file still exists. */
  function CoverInput(cover: Option<string>, coverExists: bool): (r: seq<string>)
    ensures r == [] <==> !(CoverGiven(cover) && coverExists)
    ensures r != [] ==> |r| == 2 && r[0] == "-i" && r[1] == cover.value
  {
    if CoverGiven(cover) && coverExists then ["-i", cover.value] else []
  }

  /** The options after the inputs: metadata source, encoding, and the output tags and format. */
  function FfmpegOptions(cover: Option<string>, cpuCount: nat, bitrate: nat,
                         title: string, artist: string, genre: string): seq<string>
  {
    ["-map_metadata", NatToString(MetadataInputIndex(cover))]
    + EncodingOptions(cover, cpuCount, bitrate) + OutputOptions(SafeTitle(title), SafeTitle(artist), SafeTitle(genre))
  }

  /** The options before the first input: overwrite, thread count, and the concat demuxer with unsafe paths allowed. */
  function FfmpegHead(cpuCount: nat): (r: seq<string>)
    ensures |r| == 8 && r[0] == "ffmpeg" && r[2] == "-threads" && r[3] == NatToString(cpuCount)
  {
    ["ffmpeg", "-y", "-threads", NatToString(cpuCount), "-f", "concat", "-safe", "0"]
  }

  /**
   * The command runs ffmpeg with `cpuCount` threads, reads the concat list
   * first and writes the output path, given last.
   */
  lemma FfmpegArgsFrame(cpuCount: nat, fileList: string, cover: Option<string>, coverExists: bool,
                        chapterList: string, bitrate: nat, title: string, artist: string, genre: string,
                        output: string)
    ensures var r := FfmpegArgs(cpuCount, fileList, cover, coverExists, chapterList, bitrate, title, artist, genre, output);
            |r| >= 10 && r[0] == "ffmpeg" && r[|r| - 1] == output
            && r[2] == "-threads" && r[3] == NatToString(cpuCount) && r[8] == "-i" && r[9] == fileList
  {
    ArgsLayoutFrame(FfmpegHead(cpuCount), fileList, CoverInput(cover, coverExists), chapterList,
                    FfmpegOptions(cover, cpuCount, bitrate, title, artist, genre), output);
  }

  lemma ArgsLayoutFrame(pre: seq<string>, fileList: string, coverIn: seq<string>, chapterList: string,
                        opts: seq<string>, output: string)
    requires |pre| == 8
    ensures var r := pre + (["-i", fileList] + (coverIn + (["-i", chapterList] + (opts + [output]))));
            |r| >= 10 && r[0] == pre[0] && r[2] == pre[2] && r[3] == pre[3]
            && r[8] == "-i" && r[9] == fileList && r[|r| - 1] == output
  {
  }

  /** The files ffmpeg opens, in input-index order: the argument after each `-i`. */
  function InputsOf(args: seq<string>): seq<string> {
    if |args| < 2 then []
    else if args[0] == "-i" then [args[1]] + InputsOf(args[2..])
    else InputsOf(args[1..])
  }

  predicate NoInputFlag(args: seq<string>) {
    forall i :: 0 <= i < |args| ==> args[i] != "-i"
  }

  lemma InputsOfPair(x: string, rest: seq<string>)
    ensures InputsOf(["-i", x] + rest) == [x] + InputsOf(rest)
  {
    assert (["-i", x] + rest)[2..] == rest;
  }

  lemma {:induction false} InputsOfSkip(a: seq<string>, rest: seq<string>)
    requires NoInputFlag(a)
    ensures InputsOf(a + rest) == InputsOf(rest)
  {
    if a != [] {
      InputsOfSkip(a[1..], rest);
      assert (a + rest)[1..] == a[1..] + rest;
      if |a + rest| < 2 {
        assert a + rest == a && |a| == 1 && rest == [];
      }
    } else {
      assert a + rest == rest;
    }
  }

  /** A number, a number with a unit, or a `key=value` line is never the `-i` flag. */
  lemma NotInputFlag(n: nat, key: string, value: string)
    requires key != []
    ensures NatToString(n) != "-i" && NatToString(n) + "k" != "-i"
    ensures key[0] != '-' ==> TagLine(key, value) != "-i"
  {
    var d := NatToString(n);
    assert d[0] != '-';
    assert (d + "k")[0] == d[0];
    assert TagLine(key, value)[0] == key[0];
  }

  lemma EncodingHasNoInput(cover: Option<string>, cpuCount: nat, bitrate: nat)
    ensures NoInputFlag(EncodingOptions(cover, cpuCount, bitrate))
  {
    NotInputFlag(cpuCount, "title", []);
    NotInputFlag(bitrate, "title", []);
    var audio := AudioOptions(cpuCount, bitrate);
    assert NoInputFlag(audio);
    var maps := ["-map", "0:a", "-map", "1:v"];
    var art := ["-c:v", "copy", "-disposition:v:0", "attached_pic"];
    assert NoInputFlag(maps) && NoInputFlag(art);
    NoInputFlagAppend(maps, audio);
    NoInputFlagAppend(maps + audio, art);
  }

  lemma OutputOptionsHaveNoInput(t: string, a: string, g: string)
    ensures NoInputFlag(OutputOptions(t, a, g))
  {
    NotInputFlag(0, "title", t);
    NotInputFlag(0, "artist", a);
    NotInputFlag(0, "album", t);
    NotInputFlag(0, "genre", g);
  }

  lemma NoInputFlagAppend(a: seq<string>, b: seq<string>)
    requires NoInputFlag(a) && NoInputFlag(b)
    ensures NoInputFlag(a + b)
  {
    forall i | 0 <= i < |a + b|
      ensures (a + b)[i] != "-i"
    {
      if i >= |a| { assert (a + b)[i] == b[i - |a|]; }
    }
  }

  /**
   * The inputs of the command line: the concat list, the cover when it
   * exists, and the chapter document; the output path comes last.
   */
  lemma FfmpegInputs(cpuCount: nat, fileList: string, cover: Option<string>, coverExists: bool,
                     chapterList: string, bitrate: nat, title: string, artist: string, genre: string,
                     output: string)
    ensures var args := FfmpegArgs(cpuCount, fileList, cover, coverExists, chapterList, bitrate,
                                   title, artist, genre, output);
            && InputsOf(args) == [fileList] + (if CoverGiven(cover) && coverExists then [cover.value] else [])
                                 + [chapterList]
            && args[|args| - 1] == output
  {
    HeadHasNoInput(cpuCount);
    OptionsHaveNoInput(cover, cpuCount, bitrate, title, artist, genre);
    InputsOfLayout(FfmpegHead(cpuCount), fileList, CoverInput(cover, coverExists), chapterList,
                   FfmpegOptions(cover, cpuCount, bitrate, title, artist, genre), output);
  }

  lemma HeadHasNoInput(cpuCount: nat)
    ensures NoInputFlag(FfmpegHead(cpuCount))
  {
    NotInputFlag(cpuCount, "title", []);
  }

  lemma OptionsHaveNoInput(cover: Option<string>, cpuCount: nat, bitrate: nat,
                           title: string, artist: string, genre: string)
    ensures NoInputFlag(FfmpegOptions(cover, cpuCount, bitrate, title, artist, genre))
  {
    var meta := ["-map_metadata", NatToString(MetadataInputIndex(cover))];
    var enc := EncodingOptions(cover, cpuCount, bitrate);
    var out := OutputOptions(SafeTitle(title), SafeTitle(artist), SafeTitle(genre));
    assert NoInputFlag(meta) by {
      NotInputFlag(MetadataInputIndex(cover), "title", []);
    }
    EncodingHasNoInput(cover, cpuCount, bitrate);
    OutputOptionsHaveNoInput(SafeTitle(title), SafeTitle(artist), SafeTitle(genre));
    NoInputFlagAppend(meta, enc);
    NoInputFlagAppend(meta + enc, out);
  }

  /** The inputs of an argument vector laid out as `create_m4b` lays it out. */
  lemma InputsOfLayout(pre: seq<string>, fileList: string, coverIn: seq<string>, chapterList: string,
                       opts: seq<string>, output: string)
    requires NoInputFlag(pre) && NoInputFlag(opts)
    requires coverIn == [] || (|coverIn| == 2 && coverIn[0] == "-i")
    ensures var args := pre + (["-i", fileList] + (coverIn + (["-i", chapterList] + (opts + [output]))));
            && InputsOf(args) == [fileList] + (if coverIn == [] then [] else [coverIn[1]]) + [chapterList]
            && args[|args| - 1] == output
  {
    var tail := ["-i", chapterList] + (opts + [output]);
    assert InputsOf(tail) == [chapterList] by {
      InputsOfSkip(opts, [output]);
      InputsOfPair(chapterList, opts + [output]);
    }
    assert InputsOf(coverIn + tail) == (if coverIn == [] then [] else [coverIn[1]]) + [chapterList] by {
      if coverIn != [] {
        assert coverIn == ["-i", coverIn[1]];
        InputsOfPair(coverIn[1], tail);
      } else {
        assert coverIn + tail == tail;
      }
    }
    InputsOfPair(fileList, coverIn + tail);
    InputsOfSkip(pre, ["-i", fileList] + (coverIn + tail));
  }


  /**
   * When a returned cover still exists (as it does right after extraction),
   * `-map_metadata` names the chapter document and `-map 1:v` the cover.
   */
  lemma MetadataIndexNamesChapterList(cpuCount: nat, fileList: string, cover: Option<string>, coverExists: bool,
                                      chapterList: string, bitrate: nat, title: string, artist: string,
                                      genre: string, output: string)
    requires CoverGiven(cover) ==> coverExists
    ensures var inputs := InputsOf(FfmpegArgs(cpuCount, fileList, cover, coverExists, chapterList, bitrate,
                                              title, artist, genre, output));
            && MetadataInputIndex(cover) < |inputs|
            && inputs[MetadataInputIndex(cover)] == chapterList
            && (CoverGiven(cover) ==> inputs[1] == cover.value)
  {
    FfmpegInputs(cpuCount, fileList, cover, coverExists, chapterList, bitrate, title, artist, genre, output);
  }

  /**
   * A cover path that no longer exists is left out of the inputs but still
   * moves `-map_metadata` to 2, one past the last input.
   */
  lemma MissingCoverIndexOutOfRange(cpuCount: nat, fileList: string, cover: Option<string>,
                                    chapterList: string, bitrate: nat, title: string, artist: string,
                                    genre: string, output: string)
    requires CoverGiven(cover)
    ensures MetadataInputIndex(cover)
            == |InputsOf(FfmpegArgs(cpuCount, fileList, cover, false, chapterList, bitrate, title, artist, genre, output))|
  {
    FfmpegInputs(cpuCount, fileList, cover, false, chapterList, bitrate, title, artist, genre, output);
  }

  /** `returncode == 0` and a non-empty output file on disk. */
  function M4bSucceeded(exitCode: int, outputExists: bool, outputSize: int): (ok: bool)
    ensures ok ==> exitCode == 0 && outputSize > 0
  {
    exitCode == 0 && outputExists && outputSize > 0
  }
}
