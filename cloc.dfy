/**
 * The line counter (tools/cloc.py).  A file's type is found from its name
 * against a fixed table of glob patterns.  The file is then read line by
 * line: every line counts in the total, blank lines and line comments are
 * counted outside block comments, and every line inside a block comment
 * counts as a comment.  Per-type groups add up the counts of their files.
 */
module Cloc {
  import opened Wrappers
  import opened PyStr

  /** One kind of source file: its name patterns and comment syntax. */
  datatype FileTypeDef = FileTypeDef(
    name: string,
    patterns: seq<seq<string>>,  // each pattern split at '/', outermost component first
    lineComment: Option<string>,
    blockPair: Option<(string, string)>)

  /** The counts of one file. */
  datatype FileStats = FileStats(
    path: seq<string>, fileType: string, fileSize: nat,
    totalLines: nat, blankLines: nat, commentLines: nat)

  /** Why counting a file stops with an exception. */
  datatype CountError =
    | NotImplemented          // an opening delimiter only after a closing one
    | Unmatched(delim: string) // a delimiter repeated with no partner
    | UnexpectedLine(line: string)

  /** `FILE_TYPES`: the table consulted in order. */
  const FileTypes: seq<FileTypeDef> := [
    FileTypeDef("C/C++ header", [["*.h"]], Some("//"), Some(("/*", "*/"))),
    FileTypeDef("C", [["*.c"]], Some("//"), Some(("/*", "*/"))),
    FileTypeDef("C++", [["*.cc"]], Some("//"), Some(("/*", "*/"))),
    FileTypeDef("CMake", [["CMakeLists.txt"], ["*.cmake"]], Some("#"), None),
    FileTypeDef("Python", [["*.py"]], Some("#"), None),
    FileTypeDef("Shell script", [["*.sh"]], Some("#"), None),
    FileTypeDef("Def List", [["core", "*.txt"]], Some("#"), None),
    FileTypeDef("Conf/INI", [["*.conf"], ["*.ini"]], Some("#"), None),
    FileTypeDef("ZiS", [["*.zis"]], Some("#"), None)
  ]

  // ---------------------------------------------------------------------
  // File names

  /** `fnmatch` of one name against a pattern whose only wildcard is `*`. */
  function Glob(p: string, s: string): bool
    decreases |p| + |s|
  {
    if p == [] then s == []
    else if p[0] == '*' then Glob(p[1..], s) || (s != [] && Glob(p, s[1..]))
    else s != [] && s[0] == p[0] && Glob(p[1..], s[1..])
  }

  /** A pattern without `*` matches only itself. */
  lemma {:induction false} GlobLiteral(p: string, s: string)
    requires '*' !in p
    ensures Glob(p, s) <==> s == p
    decreases |p|
  {
    if p != [] && s != [] {
      assert p[1..] == p[1..] && '*' !in p[1..];
      GlobLiteral(p[1..], s[1..]);
      if s[0] == p[0] && s[1..] == p[1..] {
        assert s == [s[0]] + s[1..] && p == [p[0]] + p[1..];
      }
    }
  }

  /** `*` followed by a literal suffix matches exactly the names ending with it. */
  lemma {:induction false} GlobSuffix(suffix: string, s: string)
    requires '*' !in suffix
    ensures Glob("*" + suffix, s) <==> EndsWith(s, suffix)
    decreases |s|
  {
    var p := "*" + suffix;
    assert p[1..] == suffix;
    GlobLiteral(suffix, s);
    if s != [] {
      GlobSuffix(suffix, s[1..]);
      if |suffix| <= |s| - 1 {
        assert s[1..][|s| - 1 - |suffix|..] == s[|s| - |suffix|..];
      }
    }
  }

  /** `PurePath.match`: a relative pattern matches the path's last components. */
  function PathMatch(path: seq<string>, pattern: seq<string>): bool {
    |pattern| <= |path| &&
    forall i :: 0 <= i < |pattern| ==> Glob(pattern[i], path[|path| - |pattern| + i])
  }

  /** Some pattern of `ft` matches `path`. */
  predicate OfType(path: seq<string>, ft: FileTypeDef) {
    exists k :: 0 <= k < |ft.patterns| && PathMatch(path, ft.patterns[k])
  }

  /** The first type from index `i` on whose patterns match `path`. */
  function FindTypeFrom(path: seq<string>, i: nat): (r: Option<nat>)
    requires i <= |FileTypes|
    ensures r.Some? ==> i <= r.value < |FileTypes| && OfType(path, FileTypes[r.value])
    ensures forall k :: i <= k < |FileTypes| && (r.None? || k < r.value) ==> !OfType(path, FileTypes[k])
    decreases |FileTypes| - i
  {
    if i == |FileTypes| then None
    else if OfType(path, FileTypes[i]) then Some(i)
    else FindTypeFrom(path, i + 1)
  }

  /** The type `scan_file` picks for `path`: the first one matching, or none. */
  function FindType(path: seq<string>): (r: Option<nat>)
    ensures r.Some? ==> r.value < |FileTypes| && OfType(path, FileTypes[r.value])
    ensures forall k :: 0 <= k < |FileTypes| && (r.None? || k < r.value) ==> !OfType(path, FileTypes[k])
  {
    FindTypeFrom(path, 0)
  }

  /** A C source file gets the "C" type: no earlier pattern matches a name ending in ".c". */
  lemma CFile(dir: seq<string>, stem: string)
    requires '.' !in stem
    ensures FindType(dir + [stem + ".c"]) == Some(1)
  {
    var path := dir + [stem + ".c"];
    var name := stem + ".c";
    assert path[|path| - 1] == name;
    assert "*" + ".c" == "*.c" && "*" + ".h" == "*.h";
    GlobSuffix(".c", name);
    assert name[|name| - 2..] == ".c";
    assert Glob(FileTypes[1].patterns[0][0], path[|path| - 1]);
    assert PathMatch(path, FileTypes[1].patterns[0]);
    GlobSuffix(".h", name);
    assert !EndsWith(name, ".h");
    assert !Glob(FileTypes[0].patterns[0][0], path[|path| - 1]);
    assert !PathMatch(path, FileTypes[0].patterns[0]);
    assert !OfType(path, FileTypes[0]);
  }

  /** The type lookup loop of `scan_file`, with its `for`/`else`. */
  method LookUpType(path: seq<string>) returns (r: Option<nat>)
    ensures r == FindType(path)
  {
    var i := 0;
    while i < |FileTypes|
      invariant i <= |FileTypes|
      invariant FindType(path) == FindTypeFrom(path, i)
      decreases |FileTypes| - i
    {
      var ft := FileTypes[i];
      var j := 0;
      while j < |ft.patterns|
        invariant j <= |ft.patterns|
        invariant forall k :: 0 <= k < j ==> !PathMatch(path, ft.patterns[k])
        decreases |ft.patterns| - j
      {
        if PathMatch(path, ft.patterns[j]) {
          return Some(i);
        }
        j := j + 1;
      }
      i := i + 1;
    }
    return None;
  }

  // ---------------------------------------------------------------------
  // Block comments on one line

  /**
   * `_measure_code_line_block_comment`: 0 for no delimiter; 1/2 for an
   * opening one (2 with code before it); 3/4 for a closing one (4 with
   * code after it); 5/6 for an opening one before a closing one (6 with
   * code around them).  The line must already be stripped.
   */
  function Measure(line: string, ft: FileTypeDef): (r: Result<nat, CountError>)
    requires ft.blockPair.Some? ==> Stripped(line)
    ensures r.Ok? ==> r.value <= 6
    ensures ft.blockPair.None? ==> r == Ok(0)
  {
    match ft.blockPair
    case None => Ok(0)
    case Some((open, close)) =>
      var begFirst := Find(line, open);
      var begLast := if begFirst != -1 then RFind(line, open) else -1;
      var endFirst := Find(line, close);
      var endLast := if endFirst != -1 then RFind(line, close) else -1;
      if begFirst != -1 then
        if endFirst != -1 then
          if begFirst < endLast then
            Ok(if begFirst == 0 && endLast + |close| == |line| then 5 else 6)
          else
            Err(NotImplemented)
        else if begFirst != begLast then Err(Unmatched(open))
        else Ok(if begFirst == 0 then 1 else 2)
      else if endFirst != -1 then
        if endFirst != endLast then Err(Unmatched(close))
        else Ok(if endLast + |close| == |line| then 3 else 4)
      else Ok(0)
  }

  /** A line without either delimiter is code (0). */
  lemma MeasureNone(line: string, ft: FileTypeDef, open: string, close: string)
    requires ft.blockPair == Some((open, close)) && Stripped(line)
    ensures Measure(line, ft) == Ok(0) <==> !Occurs(line, open) && !Occurs(line, close)
  {
    FindOccurs(line, open);
    FindOccurs(line, close);
  }

  /** 1/2: the opening delimiter once and no closing one; 1 when the line starts with it. */
  lemma MeasureOpens(line: string, ft: FileTypeDef, open: string, close: string)
    requires ft.blockPair == Some((open, close)) && Stripped(line)
    ensures Measure(line, ft) in {Ok(1), Ok(2)} <==> OccursOnce(line, open) && !Occurs(line, close)
    ensures Measure(line, ft) == Ok(1) <==> OccursOnce(line, open) && !Occurs(line, close) && StartsWith(line, open)
  {
    FindOccurs(line, open);
    FindOccurs(line, close);
    OnceFirstLast(line, open);
    FirstAtStart(line, open);
  }

  /** 3/4: the closing delimiter once and no opening one; 3 when the line ends with it. */
  lemma MeasureCloses(line: string, ft: FileTypeDef, open: string, close: string)
    requires ft.blockPair == Some((open, close)) && Stripped(line)
    ensures Measure(line, ft) in {Ok(3), Ok(4)} <==> OccursOnce(line, close) && !Occurs(line, open)
    ensures Measure(line, ft) == Ok(3) <==> OccursOnce(line, close) && !Occurs(line, open) && EndsWith(line, close)
  {
    FindOccurs(line, open);
    FindOccurs(line, close);
    OnceFirstLast(line, close);
    LastAtEnd(line, close);
  }

  /**
   * 5/6: an opening delimiter before a closing one; 5 when the line starts
   * with the one and ends with the other.  Both present in the other order
   * is not implemented.
   */
  lemma MeasureBoth(line: string, ft: FileTypeDef, open: string, close: string)
    requires ft.blockPair == Some((open, close)) && Stripped(line)
    ensures Measure(line, ft) in {Ok(5), Ok(6)} <==> OccursBefore(line, open, close)
    ensures Measure(line, ft) == Ok(5) <==>
      OccursBefore(line, open, close) && StartsWith(line, open) && EndsWith(line, close)
    ensures Measure(line, ft) == Err(NotImplemented) <==>
      Occurs(line, open) && Occurs(line, close) && !OccursBefore(line, open, close)
  {
    FindOccurs(line, open);
    FindOccurs(line, close);
    BeforeFirstLast(line, open, close);
    FirstAtStart(line, open);
    LastAtEnd(line, close);
  }

  /** An exception for an unmatched delimiter: one kind repeated and the other absent. */
  lemma MeasureUnmatched(line: string, ft: FileTypeDef, open: string, close: string)
    requires ft.blockPair == Some((open, close)) && Stripped(line)
    ensures Measure(line, ft).Err? && Measure(line, ft).error.Unmatched? <==>
      || (Occurs(line, open) && !OccursOnce(line, open) && !Occurs(line, close))
      || (Occurs(line, close) && !OccursOnce(line, close) && !Occurs(line, open))
  {
    FindOccurs(line, open);
    FindOccurs(line, close);
    OnceFirstLast(line, open);
    OnceFirstLast(line, close);
  }

  /** The first occurrence is at 0 exactly when the string starts with `sub`. */
  lemma FirstAtStart(s: string, sub: string)
    ensures Find(s, sub) == 0 <==> StartsWith(s, sub)
  {
    FindFirst(s, sub);
    if StartsWith(s, sub) {
      assert OccursAt(s, sub, 0);
    }
  }

  /** The last occurrence ends the string exactly when the string ends with `sub`. */
  lemma LastAtEnd(s: string, sub: string)
    ensures RFind(s, sub) != -1 && RFind(s, sub) + |sub| == |s| <==> EndsWith(s, sub)
  {
    RFindLast(s, sub);
    if EndsWith(s, sub) {
      assert OccursAt(s, sub, |s| - |sub|);
    }
  }

  // ---------------------------------------------------------------------
  // Counting the lines of one file

  /** The counters of the loop in `scan_file`. */
  datatype Tally = Tally(total: nat, blank: nat, comment: nat, inBlock: bool)

  /** The line (already stripped) starts with the type's line-comment marker. */
  predicate IsLineComment(line: string, ft: FileTypeDef) {
    ft.lineComment.Some? && ft.lineComment.value != [] && StartsWith(line, ft.lineComment.value)
  }

  /**
   * One turn of the counting loop on the raw line `raw`.  With `asWritten`
   * a line that opens and closes a block comment (code 5) is tested with
   * `x == 1`, which never holds there, as the source does; without it the
   * test is `x == 5`.
   */
  function Step(t: Tally, raw: string, ft: FileTypeDef, asWritten: bool): (r: Result<Tally, CountError>)
  {
    var line := Strip(raw);
    var t := t.(total := t.total + 1);
    if !t.inBlock then
      if line == [] then Ok(t.(blank := t.blank + 1))
      else if IsLineComment(line, ft) then Ok(t.(comment := t.comment + 1))
      else match Measure(line, ft)
        case Err(e) => Err(e)
        case Ok(x) =>
          if x == 0 then Ok(t)
          else if x == 1 || x == 2 then
            Ok(t.(comment := t.comment + (if x == 1 then 1 else 0), inBlock := true))
          else if x == 5 || x == 6 then
            Ok(t.(comment := t.comment + (if (if asWritten then x == 1 else x == 5) then 1 else 0)))
          else Err(UnexpectedLine(line))
    else
      var t := t.(comment := t.comment + 1);
      match Measure(line, ft)
      case Err(e) => Err(e)
      case Ok(x) =>
        if x == 0 then Ok(t)
        else if x == 3 || x == 4 then
          Ok(t.(comment := t.comment - (if x == 4 then 1 else 0), inBlock := false))
        else Err(UnexpectedLine(line))
  }

  /** The counters after the loop has run over `lines` from `t`. */
  function CountFrom(t: Tally, lines: seq<string>, ft: FileTypeDef, asWritten: bool): Result<Tally, CountError>
    decreases |lines|
  {
    if lines == [] then Ok(t)
    else match Step(t, lines[0], ft, asWritten)
      case Err(e) => Err(e)
      case Ok(u) => CountFrom(u, lines[1..], ft, asWritten)
  }

  /** The counters of a whole file. */
  function Count(lines: seq<string>, ft: FileTypeDef, asWritten: bool): Result<Tally, CountError> {
    CountFrom(Tally(0, 0, 0, false), lines, ft, asWritten)
  }

  /** The line is entirely comment, so the corrected loop counts it as one. */
  predicate CommentOnly(line: string, ft: FileTypeDef, inBlock: bool)
    requires ft.blockPair.Some? ==> Stripped(line)
  {
    if inBlock then Measure(line, ft) != Ok(4)
    else line != [] && (IsLineComment(line, ft) || Measure(line, ft) in {Ok(1), Ok(5)})
  }

  /**
   * Each line adds one to the total and to at most one of blank and
   * comment: a blank line outside a block to blank, a line that is all
   * comment to comment, and a line with code to neither.
   */
  lemma StepCounts(t: Tally, raw: string, ft: FileTypeDef, u: Tally)
    requires Step(t, raw, ft, false) == Ok(u)
    ensures u.total == t.total + 1
    ensures u.blank == t.blank + (if !t.inBlock && Strip(raw) == [] then 1 else 0)
    ensures u.comment == t.comment + (if CommentOnly(Strip(raw), ft, t.inBlock) then 1 else 0)
  {
    var line := Strip(raw);
    if !t.inBlock && (line == [] || IsLineComment(line, ft)) {
    } else {
      var x := Measure(line, ft);
      assert x.Ok?;
      if t.inBlock {
        assert u.inBlock == !(x.value in {3, 4});
      } else {
        assert x.value in {0, 1, 2, 5, 6};
      }
    }
  }

  /** The as-written loop counts the same except that it never counts a code-5 line. */
  lemma StepAsWritten(t: Tally, raw: string, ft: FileTypeDef)
    ensures Step(t, raw, ft, true) ==
      if !t.inBlock && Strip(raw) != [] && !IsLineComment(Strip(raw), ft) && Measure(Strip(raw), ft) == Ok(5)
      then Ok(t.(total := t.total + 1))
      else Step(t, raw, ft, false)
  {
    var line := Strip(raw);
    if !t.inBlock && line != [] && !IsLineComment(line, ft) {
      var x := Measure(line, ft);
      if x == Ok(5) {
        assert Step(t, raw, ft, true) == Ok(t.(total := t.total + 1));
      }
    }
  }

  /** A line `/* note */` outside a block is a comment line: the corrected loop counts it. */
  lemma OneLineCommentCounted(raw: string)
    requires Strip(raw) == "/* note */"
    ensures Count([raw], FileTypes[1], false) == Ok(Tally(1, 0, 1, false))
  {
    var line := Strip(raw);
    OneLineCommentIsFive(line);
    var ft, t0, u := FileTypes[1], Tally(0, 0, 0, false), Tally(1, 0, 1, false);
    assert line != [];
    assert Step(t0, raw, ft, false) == Ok(u);
    assert [raw][0] == raw && [raw][1..] == [];
    assert CountFrom(u, [], ft, false) == Ok(u);
    assert CountFrom(t0, [raw], ft, false) == CountFrom(u, [], ft, false);
  }

  /** The same line leaves the as-written loop's comment count at zero. */
  lemma OneLineCommentMissed(raw: string)
    requires Strip(raw) == "/* note */"
    ensures Count([raw], FileTypes[1], true) == Ok(Tally(1, 0, 0, false))
  {
    var line := Strip(raw);
    OneLineCommentIsFive(line);
    var ft, t0, u := FileTypes[1], Tally(0, 0, 0, false), Tally(1, 0, 0, false);
    assert line != [];
    assert Step(t0, raw, ft, true) == Ok(u);
    assert [raw][0] == raw && [raw][1..] == [];
    assert CountFrom(u, [], ft, true) == Ok(u);
    assert CountFrom(t0, [raw], ft, true) == CountFrom(u, [], ft, true);
  }

  /** `/* note */` measures 5 under the C block delimiters. */
  lemma OneLineCommentIsFive(line: string)
    requires line == "/* note */"
    ensures Stripped(line)
    ensures Measure(line, FileTypes[1]) == Ok(5)
    ensures !IsLineComment(line, FileTypes[1])
  {
    var ft := FileTypes[1];
    assert ft.blockPair == Some(("/*", "*/"));
    assert OccursAt(line, "/*", 0) && OccursAt(line, "*/", 8);
    assert OccursBefore(line, "/*", "*/");
    assert StartsWith(line, "/*") && EndsWith(line, "*/");
    MeasureBoth(line, ft, "/*", "*/");
  }

  /** Counting never loses a line, and blank plus comment lines never exceed the total. */
  lemma {:induction false} CountBounds(t: Tally, lines: seq<string>, ft: FileTypeDef, asWritten: bool, u: Tally)
    requires t.blank + t.comment <= t.total
    requires CountFrom(t, lines, ft, asWritten) == Ok(u)
    ensures u.total == t.total + |lines|
    ensures u.blank + u.comment <= u.total
    decreases |lines|
  {
    if lines != [] {
      var s := Step(t, lines[0], ft, asWritten);
      assert s.Ok?;
      StepGrows(t, lines[0], ft, asWritten, s.value);
      CountBounds(s.value, lines[1..], ft, asWritten, u);
    }
  }

  /** The number of blank lines. */
  function Blanks(lines: seq<string>): (n: nat)
    ensures n <= |lines|
  {
    if lines == [] then 0 else (if Strip(lines[0]) == [] then 1 else 0) + Blanks(lines[1..])
  }

  /** The number of lines that are line comments. */
  function LineComments(lines: seq<string>, ft: FileTypeDef): (n: nat)
    ensures n <= |lines|
  {
    if lines == [] then 0
    else (if Strip(lines[0]) != [] && IsLineComment(Strip(lines[0]), ft) then 1 else 0) + LineComments(lines[1..], ft)
  }

  /** Each line adds one to the total, and to blank and comment together at most one. */
  lemma StepGrows(t: Tally, raw: string, ft: FileTypeDef, asWritten: bool, u: Tally)
    requires Step(t, raw, ft, asWritten) == Ok(u)
    ensures u.total == t.total + 1
    ensures t.blank + t.comment <= u.blank + u.comment <= t.blank + t.comment + 1
  {
    var line := Strip(raw);
    if t.inBlock || (line != [] && !IsLineComment(line, ft)) {
      var x := Measure(line, ft);
      assert x.Ok?;
    }
  }

  /** Without a block-comment pair a line is blank, a line comment or code. */
  lemma StepNoBlocks(t: Tally, raw: string, ft: FileTypeDef, asWritten: bool)
    requires ft.blockPair.None? && !t.inBlock
    ensures Step(t, raw, ft, asWritten) == Ok(Tally(t.total + 1,
      t.blank + (if Strip(raw) == [] then 1 else 0),
      t.comment + (if Strip(raw) != [] && IsLineComment(Strip(raw), ft) then 1 else 0), false))
  {
    var line := Strip(raw);
    if line != [] && !IsLineComment(line, ft) {
      assert Measure(line, ft) == Ok(0);
    }
  }

  /**
   * Without a block-comment pair the loop never fails and never enters a
   * block: it counts exactly the blank lines and the line comments.
   */
  lemma {:induction false} CountLineCommentsOnly(t: Tally, lines: seq<string>, ft: FileTypeDef, asWritten: bool)
    requires ft.blockPair.None? && !t.inBlock
    ensures CountFrom(t, lines, ft, asWritten) ==
      Ok(Tally(t.total + |lines|, t.blank + Blanks(lines), t.comment + LineComments(lines, ft), false))
    decreases |lines|
  {
    if lines != [] {
      StepNoBlocks(t, lines[0], ft, asWritten);
      var u := Step(t, lines[0], ft, asWritten).value;
      CountLineCommentsOnly(u, lines[1..], ft, asWritten);
    }
  }

  /** What `scan_file` returns: nothing for a file of no known type, else the counts. */
  function Scan(path: seq<string>, size: nat, lines: seq<string>): Result<Option<FileStats>, CountError> {
    match FindType(path)
    case None => Ok(None)
    case Some(i) =>
      match Count(lines, FileTypes[i], false)
      case Err(e) => Err(e)
      case Ok(t) => Ok(Some(FileStats(path, FileTypes[i].name, size, t.total, t.blank, t.comment)))
  }

  /** A scanned file has as many lines in its total as it has lines, at least as many as its blank and comment lines. */
  lemma ScanCounts(path: seq<string>, size: nat, lines: seq<string>)
    ensures Scan(path, size, lines) == Ok(None) <==> FindType(path).None?
    ensures Scan(path, size, lines).Ok? && Scan(path, size, lines).value.Some? ==>
      var s := Scan(path, size, lines).value.value;
      s.fileType == FileTypes[FindType(path).value].name && s.fileSize == size &&
      s.totalLines == |lines| && s.blankLines + s.commentLines <= s.totalLines
  {
    var i := FindType(path);
    if i.Some? {
      var c := Count(lines, FileTypes[i.value], false);
      if c.Ok? {
        CountBounds(Tally(0, 0, 0, false), lines, FileTypes[i.value], false, c.value);
      }
    }
  }

  /** The body of the counting loop of `scan_file` for one line. */
  method CountLine(t: Tally, raw: string, ft: FileTypeDef) returns (r: Result<Tally, CountError>)
    ensures r == Step(t, raw, ft, false)
  {
    var line := Strip(raw);
    var total := t.total + 1;
    if !t.inBlock {
      if line == [] {
        return Ok(Tally(total, t.blank + 1, t.comment, false));
      } else if IsLineComment(line, ft) {
        return Ok(Tally(total, t.blank, t.comment + 1, false));
      }
      var x := Measure(line, ft);
      match x {
        case Err(e) =>
          return Err(e);
        case Ok(code) =>
          if code == 0 {
            return Ok(Tally(total, t.blank, t.comment, false));
          } else if code == 1 || code == 2 {
            return Ok(Tally(total, t.blank, t.comment + (if code == 1 then 1 else 0), true));
          } else if code == 5 || code == 6 {
            return Ok(Tally(total, t.blank, t.comment + (if code == 5 then 1 else 0), false));
          }
          return Err(UnexpectedLine(line));
      }
    } else {
      var comment := t.comment + 1;
      var x := Measure(line, ft);
      match x {
        case Err(e) =>
          return Err(e);
        case Ok(code) =>
          if code == 0 {
            return Ok(Tally(total, t.blank, comment, true));
          } else if code == 3 || code == 4 {
            return Ok(Tally(total, t.blank, comment - (if code == 4 then 1 else 0), false));
          }
          return Err(UnexpectedLine(line));
      }
    }
  }

  /**
   * `scan_file`: the type lookup, then the counting loop over the lines of
   * the file; the file's size and its lines are given, not read.
   */
  method ScanFile(path: seq<string>, size: nat, lines: seq<string>) returns (r: Result<Option<FileStats>, CountError>)
    ensures r == Scan(path, size, lines)
  {
    var i := LookUpType(path);
    if i.None? {
      return Ok(None);
    }
    var ft := FileTypes[i.value];
    var t := Tally(0, 0, 0, false);
    var k := 0;
    while k < |lines|
      invariant k <= |lines|
      invariant Count(lines, ft, false) == CountFrom(t, lines[k..], ft, false)
      decreases |lines| - k
    {
      assert lines[k..][0] == lines[k] && lines[k..][1..] == lines[k + 1..];
      var next := CountLine(t, lines[k], ft);
      if next.Err? {
        return Err(next.error);
      }
      t := next.value;
      k := k + 1;
    }
    assert lines[k..] == [];
    return Ok(Some(FileStats(path, ft.name, size, t.total, t.blank, t.comment)));
  }

  // ---------------------------------------------------------------------
  // Groups of files of one type

  /** The four counters of a group. */
  datatype Counters = Counters(size: nat, total: nat, blank: nat, comment: nat) {
    function Plus(o: Counters): Counters {
      Counters(size + o.size, total + o.total, blank + o.blank, comment + o.comment)
    }
  }

  /** The counters of one file. */
  function CountersOf(s: FileStats): Counters {
    Counters(s.fileSize, s.totalLines, s.blankLines, s.commentLines)
  }

  /** The counters of a list of files, added up. */
  function Sum(files: seq<FileStats>): Counters {
    if files == [] then Counters(0, 0, 0, 0)
    else CountersOf(files[0]).Plus(Sum(files[1..]))
  }

  /** The sum over two lists one after the other is the sum of the sums. */
  lemma {:induction false} SumConcat(a: seq<FileStats>, b: seq<FileStats>)
    ensures Sum(a + b) == Sum(a).Plus(Sum(b))
    decreases |a|
  {
    if a == [] {
      assert a + b == b;
    } else {
      assert (a + b)[1..] == a[1..] + b;
      SumConcat(a[1..], b);
    }
  }

  /** The sums of two lists added up are the sum of the two lists joined. */
  lemma MergedSums(a: seq<FileStats>, b: seq<FileStats>, ca: Counters, cb: Counters)
    requires Sum(a) == ca && Sum(b) == cb
    ensures Sum(a + b) == ca.Plus(cb)
  {
    SumConcat(a, b);
  }

  /** A file whose blank and comment lines fit in its total. */
  predicate WellCounted(s: FileStats) {
    s.blankLines + s.commentLines <= s.totalLines
  }

  /** The code-line count `dump_stats` prints for a group is never negative. */
  lemma {:induction false} SumWellCounted(files: seq<FileStats>)
    requires forall k :: 0 <= k < |files| ==> WellCounted(files[k])
    ensures Sum(files).blank + Sum(files).comment <= Sum(files).total
    decreases |files|
  {
    if files != [] {
      SumWellCounted(files[1..]);
      assert WellCounted(files[0]);
    }
  }

  /** `GroupedStats`: the files of one type and their counters added up. */
  class GroupedStats {
    var fileType: string
    var files: seq<FileStats>
    var fileSize: nat
    var totalLines: nat
    var blankLines: nat
    var commentLines: nat

    /** The counters of the group. */
    function Totals(): Counters
      reads this
    {
      Counters(fileSize, totalLines, blankLines, commentLines)
    }

    /** The counters are the sums over the files. */
    ghost predicate Valid()
      reads this
    {
      Counters(fileSize, totalLines, blankLines, commentLines) == Sum(files)
    }

    /** `GroupedStats(file_type)`: an empty group. */
    constructor (fileType: string)
      ensures this.fileType == fileType && files == []
      ensures Valid()
    {
      this.fileType := fileType;
      files := [];
      fileSize, totalLines, blankLines, commentLines := 0, 0, 0, 0;
    }

    /** `<<`: append one file and add its counters. */
    method Add(s: FileStats)
      requires Valid()
      modifies this
      ensures files == old(files) + [s] && fileType == old(fileType)
      ensures Totals() == old(Totals()).Plus(CountersOf(s))
      ensures Valid()
    {
      MergedSums(files, [s], Totals(), CountersOf(s));
      files := files + [s];
      fileSize, totalLines, blankLines, commentLines :=
        fileSize + s.fileSize, totalLines + s.totalLines, blankLines + s.blankLines, commentLines + s.commentLines;
    }

    /** `+=`: append the files of another group (possibly this one) and add its counters. */
    method Merge(other: GroupedStats)
      requires Valid() && other.Valid()
      modifies this
      ensures files == old(files) + old(other.files) && fileType == old(fileType)
      ensures Totals() == old(Totals()).Plus(old(other.Totals()))
      ensures Valid()
    {
      var theirs := other.files;
      MergedSums(files, theirs, Totals(), other.Totals());
      files := files + theirs;
      fileSize, totalLines, blankLines, commentLines :=
        fileSize + other.fileSize, totalLines + other.totalLines, blankLines + other.blankLines, commentLines + other.commentLines;
    }
  }
}
