/**
 * The doc-string collector (tools/cdocstr.py).  A doc-string is a C
 * comment whose first line starts with the marker `Marker` (the opening
 * delimiter, then `#DOCSTR#` and a space); the rest
 * of that line is the synopsis, and the following lines up to the first
 * one ending with the closing delimiter make up the description.  Each
 * doc-string becomes a title, the synopsis and a description in which
 * the lines are joined with spaces and blank lines start new paragraphs.
 */
module CDocStr {
  import opened Wrappers
  import opened PyStr
  import Numerals

  /** One collected doc-string. */
  datatype DocStr = DocStr(title: string, synopsis: string, description: string)

  /** `BadDocStr`: the exception for a malformed doc-string. */
  datatype BadDocStr = BadDocStr(file: string, line: nat, what: string) {
    /** `file:line: what`, as the exception prints itself. */
    function Text(): string {
      file + ":" + Numerals.DecimalText(line) + ": " + what
    }
  }

  /** The start of a doc-string comment. */
  const Marker: string := "/*#DOCSTR# "

  // ---------------------------------------------------------------------
  // Title

  /** `s.split(c, 1)[0]`: the part of `s` before the first `c`. */
  function Before(s: string, c: char): (r: string)
    ensures |r| <= |s| && r == s[..|r|]
    ensures c !in r
    ensures |r| < |s| ==> s[|r|] == c
  {
    if s == [] || s[0] == c then [] else [s[0]] + Before(s[1..], c)
  }

  /** An ASCII letter in upper case; every other character unchanged. */
  function UpperAscii(ch: char): char {
    if 'a' <= ch <= 'z' then (ch as int - 32) as char else ch
  }

  /** An ASCII letter in lower case; every other character unchanged. */
  function LowerAscii(ch: char): char {
    if 'A' <= ch <= 'Z' then (ch as int + 32) as char else ch
  }

  /** `s.capitalize()` on ASCII text: the first character upper case, the rest lower case. */
  function Capitalize(s: string): (r: string)
    ensures |r| == |s|
  {
    if s == [] then [] else [UpperAscii(s[0])] + seq(|s| - 1, i requires 0 <= i < |s| - 1 => LowerAscii(s[i + 1]))
  }

  /** Capitalizing twice is capitalizing once, and only letters change. */
  lemma CapitalizeTwice(s: string)
    ensures Capitalize(Capitalize(s)) == Capitalize(s)
    ensures forall i :: 0 <= i < |s| && !('a' <= s[i] <= 'z') && !('A' <= s[i] <= 'Z') ==> Capitalize(s)[i] == s[i]
  {
    if s != [] {
      var c := Capitalize(s);
      var cc := Capitalize(c);
      assert forall i :: 0 <= i < |s| ==> cc[i] == c[i];
    }
  }

  /** The title of a synopsis: its text before the first '(', capitalized. */
  function Title(synopsis: string): (r: string)
    ensures |r| <= |synopsis| && '(' !in r
  {
    var name := Before(synopsis, '(');
    var r := Capitalize(name);
    assert forall i :: 0 <= i < |r| ==> r[i] != '(' by {
      forall i | 0 <= i < |r| ensures r[i] != '(' {
        assert name[i] != '(';
      }
    }
    r
  }

  /** For a synopsis `name(args`, the title is `name` capitalized. */
  lemma TitleOfCall(name: string, args: string)
    requires '(' !in name
    ensures Title(name + "(" + args) == Capitalize(name)
  {
    var s := name + "(" + args;
    var b := Before(s, '(');
    assert s[|name|] == '(';
    assert forall i :: 0 <= i < |name| ==> s[i] == name[i];
    assert |b| == |name|;
    assert b == s[..|name|] == name;
  }

  // ---------------------------------------------------------------------
  // Description

  /**
   * The description of the comment lines after the synopsis: the non-empty
   * lines, each followed by a line break when a blank line comes before the
   * next one and by a space otherwise; leading and trailing blank lines add
   * nothing.
   */
  function Describe(lines: seq<string>): (r: string)
    ensures r == [] <==> forall i :: 0 <= i < |lines| ==> lines[i] == []
  {
    if lines == [] then []
    else if lines[0] == [] then Describe(lines[1..])
    else
      var tail := Describe(lines[1..]);
      if tail == [] then lines[0]
      else lines[0] + [if lines[1] == [] then '\n' else ' '] + tail
  }

  /** The separator that follows the last line read: a break after a blank line. */
  function Separator(lines: seq<string>): string
    requires lines != []
  {
    if lines[|lines| - 1] == [] then "\n" else " "
  }

  /**
   * One more line: a blank one changes nothing; a non-empty one is joined
   * to what came before with the separator the previous line calls for.
   */
  lemma DescribeSnoc(p: seq<string>, x: string)
    ensures x == [] ==> Describe(p + [x]) == Describe(p)
    ensures x != [] && Describe(p) == [] ==> Describe(p + [x]) == x
    ensures x != [] && Describe(p) != [] ==> p != [] && Describe(p + [x]) == Describe(p) + Separator(p) + x
  {
    if x == [] {
      DescribeSnocBlank(p);
    } else {
      DescribeSnocText(p, x);
    }
  }

  /** A trailing blank line adds nothing to the description. */
  lemma {:induction false} DescribeSnocBlank(p: seq<string>)
    ensures Describe(p + [[]]) == Describe(p)
    decreases |p|
  {
    var q := p + [[]];
    if p == [] {
      assert q == [[]] && q[1..] == [];
    } else {
      assert q[0] == p[0] && q[1..] == p[1..] + [[]];
      DescribeSnocBlank(p[1..]);
      if p[0] != [] && Describe(p[1..]) != [] {
        assert q[1] == p[1];
      }
    }
  }

  /** A line of text after nothing but blank lines is the whole description. */
  lemma {:induction false} DescribeSnocFirst(p: seq<string>, x: string)
    requires x != [] && Describe(p) == []
    ensures Describe(p + [x]) == x
    decreases |p|
  {
    var q := p + [x];
    if p == [] {
      assert q == [x] && q[1..] == [];
    } else {
      assert p[0] == [];
      assert q[0] == p[0] && q[1..] == p[1..] + [x];
      DescribeSnocFirst(p[1..], x);
    }
  }

  /** A trailing line of text is joined on with the separator the line before calls for. */
  lemma {:induction false} DescribeSnocText(p: seq<string>, x: string)
    requires x != []
    ensures Describe(p) == [] ==> Describe(p + [x]) == x
    ensures Describe(p) != [] ==> p != [] && Describe(p + [x]) == Describe(p) + Separator(p) + x
    decreases |p|
  {
    if Describe(p) == [] {
      DescribeSnocFirst(p, x);
      return;
    }
    var q := p + [x];
    assert q[0] == p[0] && q[1..] == p[1..] + [x];
    var d1 := Describe(p[1..]);
    if d1 == [] {
      DescribeSnocFirst(p[1..], x);
      assert p[0] != [];
      if |p| > 1 {
        assert p[1] == p[1..][0] == [];
        assert p[|p| - 1] == p[1..][|p| - 2] == [];
      }
    } else {
      DescribeSnocText(p[1..], x);
      assert p[1..][|p| - 2] == p[|p| - 1];
      assert Separator(p[1..]) == Separator(p);
      if p[0] != [] {
        assert q[1] == p[1];
      }
    }
  }

  /** Without blank lines the description is the lines joined with spaces. */
  lemma {:induction false} DescribeNoBlanks(lines: seq<string>)
    requires forall i :: 0 <= i < |lines| ==> lines[i] != []
    ensures Describe(lines) == JoinSpaced(lines)
    decreases |lines|
  {
    if lines != [] {
      DescribeNoBlanks(lines[1..]);
      if |lines| > 1 {
        assert lines[1..][0] == lines[1];
      }
    }
  }

  /** `' '.join(lines)`. */
  function JoinSpaced(lines: seq<string>): string {
    if lines == [] then []
    else if |lines| == 1 then lines[0]
    else lines[0] + " " + JoinSpaced(lines[1..])
  }

  /** `''.join(pieces)`. */
  function Join(pieces: seq<string>): string {
    if pieces == [] then [] else Join(pieces[..|pieces| - 1]) + pieces[|pieces| - 1]
  }

  /** The doc-string of a comment's lines. */
  function DocOf(lines: seq<string>): DocStr
    requires lines != []
  {
    DocStr(Title(lines[0]), lines[0], Describe(lines[1..]))
  }

  /**
   * The list of pieces after the lines `p`: empty while no line had text;
   * otherwise the pieces before the last join to the description of `p`,
   * and the last is the separator `p` calls for.
   */
  ghost predicate PiecesOf(pieces: seq<string>, p: seq<string>) {
    && (pieces == [] <==> Describe(p) == [])
    && (pieces != [] ==>
         p != [] && Join(pieces[..|pieces| - 1]) == Describe(p) && pieces[|pieces| - 1] == Separator(p))
  }

  /** Joining one more piece appends it. */
  lemma JoinSnoc(pieces: seq<string>, x: string)
    ensures Join(pieces + [x]) == Join(pieces) + x
  {
    assert (pieces + [x])[..|pieces|] == pieces;
  }

  /** A line with text is appended, followed by a space. */
  lemma AppendLine(pieces: seq<string>, p: seq<string>, x: string)
    requires PiecesOf(pieces, p) && x != []
    ensures PiecesOf(pieces + [x, " "], p + [x])
  {
    DescribeSnoc(p, x);
    var next := pieces + [x, " "];
    assert next[..|next| - 1] == pieces + [x];
    JoinSnoc(pieces, x);
    if pieces != [] {
      var m := |pieces| - 1;
      assert pieces == pieces[..m] + [pieces[m]];
      JoinSnoc(pieces[..m], pieces[m]);
    }
    assert (p + [x])[|p|] == x;
  }

  /** A blank line turns the last separator into a line break. */
  lemma BreakLine(pieces: seq<string>, p: seq<string>)
    requires PiecesOf(pieces, p) && pieces != []
    ensures PiecesOf(pieces[..|pieces| - 1] + ["\n"], p + [[]])
  {
    DescribeSnoc(p, []);
    var kept := pieces[..|pieces| - 1];
    assert (kept + ["\n"])[..|kept|] == kept;
    assert (p + [[]])[|p|] == [];
  }

  /** A blank line before any text adds nothing. */
  lemma LeadingBlank(p: seq<string>)
    requires PiecesOf([], p)
    ensures PiecesOf([], p + [[]])
  {
    DescribeSnoc(p, []);
  }

  /**
   * `DocStr.from_c_comment`: the loop that builds the list of pieces
   * (each non-empty line followed by a separator, the separator turned into
   * a line break by a blank line), then the last separator dropped.
   */
  method FromComment(lines: seq<string>) returns (d: DocStr)
    requires lines != []
    ensures d == DocOf(lines)
  {
    var synopsis := lines[0];
    var title := Title(synopsis);
    var pieces: seq<string> := [];
    var k := 1;
    while k < |lines|
      invariant 1 <= k <= |lines|
      invariant PiecesOf(pieces, lines[1..k])
      decreases |lines| - k
    {
      var x := lines[k];
      assert lines[1..k + 1] == lines[1..k] + [x];
      if x != [] {
        AppendLine(pieces, lines[1..k], x);
        pieces := pieces + [x, " "];
      } else if pieces != [] {
        BreakLine(pieces, lines[1..k]);
        pieces := pieces[..|pieces| - 1] + ["\n"];
      } else {
        LeadingBlank(lines[1..k]);
      }
      k := k + 1;
    }
    assert lines[1..k] == lines[1..];
    if pieces != [] && pieces[|pieces| - 1] in {" ", "\n"} {
      pieces := pieces[..|pieces| - 1];
    }
    return DocStr(title, synopsis, Join(pieces));
  }

  // ---------------------------------------------------------------------
  // Collecting the doc-strings of a file

  /** The results of a later part of the file, after the doc-strings `done` found before it. */
  function Prepend(done: seq<DocStr>, r: Result<seq<DocStr>, BadDocStr>): Result<seq<DocStr>, BadDocStr> {
    match r
    case Ok(ds) => Ok(done + ds)
    case Err(e) => Err(e)
  }

  /**
   * `collect_docstr` over the lines `rest`, with the lines of the open
   * comment in `current` and `n` lines read before.
   */
  function CollectFrom(file: string, rest: seq<string>, current: seq<string>, n: nat): Result<seq<DocStr>, BadDocStr>
    decreases |rest|
  {
    if rest == [] then
      if current == [] then Ok([]) else Err(BadDocStr(file, n, "comment not terminated"))
    else
      var line := Strip(rest[0]);
      if current == [] then
        CollectFrom(file, rest[1..], if StartsWith(line, Marker) then [line[|Marker|..]] else [], n + 1)
      else if EndsWith(line, "*/") then
        Prepend([DocOf(current + [RStrip(line[..|line| - 2])])], CollectFrom(file, rest[1..], [], n + 1))
      else
        CollectFrom(file, rest[1..], current + [line], n + 1)
  }

  /** The doc-strings of a whole file, or the error that ends it. */
  function Collect(file: string, lines: seq<string>): Result<seq<DocStr>, BadDocStr> {
    CollectFrom(file, lines, [], 0)
  }

  /** `collect_docstr`: the loop over the lines of a file; its name and lines are given, not read. */
  method CollectDocStr(file: string, lines: seq<string>) returns (r: Result<seq<DocStr>, BadDocStr>)
    ensures r == Collect(file, lines)
  {
    var done: seq<DocStr> := [];
    var current: seq<string> := [];
    var n := 0;
    assert lines[n..] == lines;
    PrependNothing(Collect(file, lines));
    while n < |lines|
      invariant n <= |lines|
      invariant Collect(file, lines) == Prepend(done, CollectFrom(file, lines[n..], current, n))
      decreases |lines| - n
    {
      assert lines[n..][0] == lines[n] && lines[n..][1..] == lines[n + 1..];
      var line := Strip(lines[n]);
      n := n + 1;
      if current == [] {
        if StartsWith(line, Marker) {
          current := [line[|Marker|..]];
        }
      } else if EndsWith(line, "*/") {
        current := current + [RStrip(line[..|line| - 2])];
        var d := FromComment(current);
        PrependTwice(done, [d], CollectFrom(file, lines[n..], [], n));
        done := done + [d];
        current := [];
      } else {
        current := current + [line];
      }
    }
    assert lines[n..] == [];
    if current != [] {
      return Err(BadDocStr(file, n, "comment not terminated"));
    }
    assert done + [] == done;
    return Ok(done);
  }

  /** Prepending no doc-strings changes nothing. */
  lemma PrependNothing(r: Result<seq<DocStr>, BadDocStr>)
    ensures Prepend([], r) == r
  {
    if r.Ok? {
      assert [] + r.value == r.value;
    }
  }

  /** Prepending in two steps is prepending once. */
  lemma PrependTwice(a: seq<DocStr>, b: seq<DocStr>, r: Result<seq<DocStr>, BadDocStr>)
    ensures Prepend(a, Prepend(b, r)) == Prepend(a + b, r)
  {
    if r.Ok? {
      assert a + (b + r.value) == (a + b) + r.value;
    }
  }

  /**
   * The only error is an unterminated comment, and it names the file's
   * last line, not the line where the comment began.
   */
  lemma {:induction false} ErrorAtEnd(file: string, rest: seq<string>, current: seq<string>, n: nat)
    ensures CollectFrom(file, rest, current, n).Err? ==>
      CollectFrom(file, rest, current, n).error == BadDocStr(file, n + |rest|, "comment not terminated")
    decreases |rest|
  {
    if rest != [] {
      var line := Strip(rest[0]);
      ErrorAtEnd(file, rest[1..], [], n + 1);
      if current == [] {
        ErrorAtEnd(file, rest[1..], if StartsWith(line, Marker) then [line[|Marker|..]] else [], n + 1);
      } else {
        ErrorAtEnd(file, rest[1..], current + [line], n + 1);
      }
    }
  }

  /** A file with no line starting with the marker has no doc-strings. */
  lemma {:induction false} NoMarkers(file: string, rest: seq<string>, n: nat)
    requires forall i :: 0 <= i < |rest| ==> !StartsWith(Strip(rest[i]), Marker)
    ensures CollectFrom(file, rest, [], n) == Ok([])
    decreases |rest|
  {
    if rest != [] {
      assert !StartsWith(Strip(rest[0]), Marker);
      NoMarkers(file, rest[1..], n + 1);
    }
  }

  /**
   * The opening line is never checked for the closing delimiter: a
   * doc-string on one line stays open, and at the end of the file it is
   * reported as not terminated.
   */
  lemma OneLineNotClosed(file: string, synopsis: string)
    requires Stripped(Marker + synopsis)
    ensures Collect(file, [Marker + synopsis + " */"]) == Err(BadDocStr(file, 1, "comment not terminated"))
  {
    var raw := Marker + synopsis + " */";
    assert Stripped(raw) by {
      assert raw[0] == '/' && raw[|raw| - 1] == '/';
    }
    StrippedFixed(raw);
    assert raw[..|Marker|] == Marker;
    assert [raw][0] == raw && [raw][1..] == [];
    assert CollectFrom(file, [], [raw[|Marker|..]], 1) == Err(BadDocStr(file, 1, "comment not terminated"));
    assert CollectFrom(file, [raw], [], 0) == CollectFrom(file, [], [raw[|Marker|..]], 1);
  }

  /**
   * A two-line doc-string: the synopsis from the opening line and, as the
   * description, the last line without its delimiter and trailing blanks.
   */
  lemma TwoLineDocStr(file: string, synopsis: string, body: string)
    requires Stripped(Marker + synopsis) && Stripped(body + "*/") && RStrip(body) != []
    ensures Collect(file, [Marker + synopsis, body + "*/"]) ==
      Ok([DocStr(Title(synopsis), synopsis, RStrip(body))])
  {
    var first, last := Marker + synopsis, body + "*/";
    var lines := [first, last];
    StrippedFixed(first);
    StrippedFixed(last);
    assert first[..|Marker|] == Marker && first[|Marker|..] == synopsis;
    assert last[|last| - 2..] == "*/" && last[..|last| - 2] == body;
    assert lines[1..] == [last] && lines[1..][1..] == [];
    var comment := [synopsis, RStrip(body)];
    assert comment[1..] == [RStrip(body)];
    assert Describe([RStrip(body)]) == RStrip(body) by {
      assert [RStrip(body)][1..] == [];
    }
    var doc := DocStr(Title(synopsis), synopsis, RStrip(body));
    assert DocOf(comment) == doc;
    assert [synopsis] + [RStrip(last[..|last| - 2])] == comment;
    assert CollectFrom(file, [last], [synopsis], 1) == Prepend([doc], CollectFrom(file, [], [], 2));
    assert [doc] + [] == [doc];
    assert CollectFrom(file, lines, [], 0) == CollectFrom(file, [last], [synopsis], 1);
  }

  // ---------------------------------------------------------------------
  // Markdown

  /** `title.replace('\\', '\\\\')`: every backslash doubled. */
  function Escape(s: string): (r: string)
    ensures |r| >= |s|
  {
    if s == [] then [] else (if s[0] == '\\' then "\\\\" else [s[0]]) + Escape(s[1..])
  }

  /** Reading a doubled backslash as one. */
  function Unescape(s: string): (r: string)
    decreases |s|
  {
    if s == [] then []
    else if s[0] == '\\' && |s| >= 2 && s[1] == '\\' then "\\" + Unescape(s[2..])
    else [s[0]] + Unescape(s[1..])
  }

  /** Escaping loses nothing: the text comes back. */
  lemma {:induction false} EscapeRoundTrip(s: string)
    ensures Unescape(Escape(s)) == s
    decreases |s|
  {
    if s != [] {
      EscapeRoundTrip(s[1..]);
      var e := Escape(s);
      if s[0] == '\\' {
        assert e[2..] == Escape(s[1..]);
      } else {
        assert e[1..] == Escape(s[1..]);
      }
      assert s == [s[0]] + s[1..];
    }
  }
}
