/**
 * The POSIX path-string functions of `core/fsutil.c`.
 *
 * A path is a string without NUL characters.  The functions write their
 * result into a caller buffer, NUL-terminated, and return its length; the
 * methods below do the same on an `array<char>`, and each is specified by a
 * function on strings that says what the result is.  The separator is '/'.
 */
module Fsutil {
  import opened Wrappers

  const Nul: char := '\0'
  const Sep: char := '/'

  /** `ZIS_PATH_MAX`: `FILENAME_MAX`, 4096 with glibc. */
  const PathMax: nat := 4096

  predicate NoNul(p: string) {
    forall i :: 0 <= i < |p| ==> p[i] != Nul
  }

  /** `strrchr(p, c)`: the index of the last `c` in `p`. */
  function LastIndex(p: string, c: char): (r: Option<nat>)
    ensures r.Some? ==> r.value < |p| && p[r.value] == c && forall j :: r.value < j < |p| ==> p[j] != c
    ensures r.None? ==> forall j :: 0 <= j < |p| ==> p[j] != c
  {
    if p == [] then None
    else if p[|p| - 1] == c then Some(|p| - 1)
    else LastIndex(p[..|p| - 1], c)
  }

  /** Where the final component starts: just after the last '/', or 0. */
  function ComponentStart(p: string): (b: nat)
    ensures b <= |p|
    ensures forall j :: b <= j < |p| ==> p[j] != Sep
    ensures b > 0 ==> p[b - 1] == Sep
  {
    match LastIndex(p, Sep)
    case None => 0
    case Some(i) => i + 1
  }

  /**
   * The extension dot within a final component (a string without '/'): its
   * last '.', unless that is the component's first character or the
   * component is "..".
   */
  function ComponentExtDot(comp: string): (r: Option<nat>)
    ensures r.Some? ==> 0 < r.value < |comp| && comp[r.value] == '.'
    ensures r.Some? ==> forall j :: r.value < j < |comp| ==> comp[j] != '.'
  {
    var d := LastIndex(comp, '.');
    if d.None? || d.value == 0 then None
    else if comp[0] == '.' && d.value == 1 && |comp| == 2 then None
    else d
  }

  /** `rfind_ext_dot`: no extension when the path ends with '/', otherwise the extension dot of the final component. */
  function ExtDot(p: string): (r: Option<nat>)
    ensures r.Some? ==> ComponentStart(p) < r.value < |p| && p[r.value] == '.'
    ensures r.Some? ==> forall j :: r.value < j < |p| ==> p[j] != '.'
  {
    var ls := LastIndex(p, Sep);
    if ls.Some? && ls.value + 1 == |p| then None
    else
      var b := ComponentStart(p);
      match ComponentExtDot(p[b..])
      case None => None
      case Some(d) => Some(b + d)
  }

  /** `zis_path_filename`: the text after the last '/' ("" when the path ends with '/'), or the whole path. */
  function Filename(p: string): (f: string)
    ensures forall j :: 0 <= j < |f| ==> f[j] != Sep
    ensures |f| <= |p| && f == p[|p| - |f|..]
  {
    p[ComponentStart(p)..]
  }

  /** `zis_path_extension`: from the extension dot to the end, or "". */
  function Extension(p: string): string {
    match ExtDot(p)
    case None => ""
    case Some(d) => p[d..]
  }

  /** `zis_path_stem`: the final component without its extension. */
  function Stem(p: string): string {
    var f := Filename(p);
    match ExtDot(f)
    case None => f
    case Some(d) => f[..d]
  }

  /** `zis_path_join`: '/' between the parts, none after a trailing '/', and an absolute second part alone. */
  function Join(p1: string, p2: string): string
    requires (|p2| > 0 && p2[0] == Sep) || |p1| >= 1
  {
    if |p2| > 0 && p2[0] == Sep then p2
    else if p1[|p1| - 1] == Sep then p1 + p2
    else p1 + [Sep] + p2
  }

  /** The index the trailing-separator loop of `zis_path_parent` stops at, walking down from `k`. */
  function SkipBackSeps(p: string, k: nat): (n: nat)
    requires k < |p|
    ensures n <= k
    ensures n > 0 ==> p[n] != Sep
  {
    if k > 0 && p[k] == Sep then SkipBackSeps(p, k - 1) else k
  }

  /**
   * `zis_path_parent`: the text before the last '/', "/" when that is empty,
   * and `path + "/.."` when there is no '/'.  When the path ends with '/'
   * the source walks back over the trailing separators and cuts there.
   */
  function Parent(p: string): string
    requires |p| >= 1
  {
    match LastIndex(p, Sep)
    case None => Join(p, "..")
    case Some(ls) =>
      var n := if ls + 1 == |p| then SkipBackSeps(p, ls) else ls;
      if n == 0 then [Sep] else p[..n]
  }

  /** `zis_path_with_extension`: the path up to its extension dot, followed by `newExt` when given. */
  function WithExtension(p: string, newExt: Option<string>): string {
    var prefix := match ExtDot(p) case None => p case Some(d) => p[..d];
    match newExt
    case None => prefix
    case Some(e) => prefix + e
  }

  /* ----- properties ----------------------------------------------------- */

  /** A filename is empty exactly when the path is empty or ends with '/'. */
  lemma FilenameEmpty(p: string)
    ensures Filename(p) == "" <==> p == "" || p[|p| - 1] == Sep
  {
  }

  /** The extension dot of a path is the extension dot of its filename, shifted by the component start. */
  lemma ExtDotOfFilename(p: string)
    ensures ExtDot(Filename(p)).None? <==> ExtDot(p).None?
    ensures ExtDot(p).Some? ==> ExtDot(Filename(p)) == Some(ExtDot(p).value - ComponentStart(p))
  {
    var f := Filename(p);
    assert LastIndex(f, Sep).None?;
    assert ComponentStart(f) == 0;
    assert f[0..] == f;
  }

  /** With an extension dot, the stem is the filename before it and the extension the filename from it. */
  lemma StemExtensionAtDot(p: string)
    requires ExtDot(p).Some?
    ensures Stem(p) == Filename(p)[..ExtDot(p).value - ComponentStart(p)]
    ensures Extension(p) == Filename(p)[ExtDot(p).value - ComponentStart(p)..]
  {
    ExtDotOfFilename(p);
    var f, b, d := Filename(p), ComponentStart(p), ExtDot(p).value;
    assert f == p[b..];
    assert Extension(p) == p[d..];
    assert p[d..] == f[d - b..];
  }

  /** Stem and extension split the filename. */
  lemma StemExtension(p: string)
    ensures Stem(p) + Extension(p) == Filename(p)
  {
    if ExtDot(p).Some? {
      StemExtensionAtDot(p);
    } else {
      ExtDotOfFilename(p);
    }
  }

  /** A non-empty extension starts with its dot, after a non-empty stem. */
  lemma ExtensionShape(p: string)
    ensures Extension(p) != "" ==> Extension(p)[0] == '.' && Stem(p) != ""
    ensures forall j :: 1 <= j < |Extension(p)| ==> Extension(p)[j] != '.' && Extension(p)[j] != Sep
  {
    ExtDotOfFilename(p);
  }

  /** Stripping the extension and putting it back gives the path again. */
  lemma WithExtensionRoundTrip(p: string)
    ensures WithExtension(p, None) + Extension(p) == p
    ensures forall e :: WithExtension(p, Some(e)) == WithExtension(p, None) + e
  {
  }

  /** Below a path that does not end with '/', parent, separator and filename rebuild the path. */
  lemma ParentFilename(p: string)
    requires |p| >= 1 && p[|p| - 1] != Sep && ComponentStart(p) > 1
    ensures Parent(p) + [Sep] + Filename(p) == p
  {
    var ls := LastIndex(p, Sep).value;
    assert p == p[..ls] + [Sep] + p[ls + 1..];
  }

  /** The joins exercised by the test suite, and the absolute and trailing-separator cases. */
  lemma JoinCases()
    ensures Join("foo", "bar") == "foo/bar"
    ensures Join("foo/", "bar") == "foo/bar"
    ensures Join("foo", "/bar") == "/bar"
  {
  }

  predicate NoSep(s: string) {
    forall j :: 0 <= j < |s| ==> s[j] != Sep
  }

  /** The last occurrence of `c` is found wherever it is. */
  lemma LastIndexAt(p: string, c: char, i: nat)
    requires i < |p| && p[i] == c && forall j :: i < j < |p| ==> p[j] != c
    ensures LastIndex(p, c) == Some(i)
  {
  }

  /** A path without '/' is its own filename, and its extension dot is that of the component. */
  lemma ComponentExtDotOf(comp: string)
    requires NoSep(comp)
    ensures Filename(comp) == comp
    ensures ExtDot(comp) == ComponentExtDot(comp)
  {
    assert LastIndex(comp, Sep).None?;
    assert comp[0..] == comp;
  }

  /** Below a directory, the final component decides the filename and the extension dot. */
  lemma JoinedExtDot(dir: string, comp: string)
    requires NoSep(comp) && comp != ""
    ensures Filename(dir + [Sep] + comp) == comp
    ensures ExtDot(dir + [Sep] + comp) == match ComponentExtDot(comp) case None => None case Some(d) => Some(|dir| + 1 + d)
  {
    var p := dir + [Sep] + comp;
    LastIndexAt(p, Sep, |dir|);
    assert p[|dir| + 1..] == comp;
  }

  /** Below a directory, the stem is the final component cut at its extension dot. */
  lemma JoinedStem(dir: string, comp: string)
    requires NoSep(comp) && comp != ""
    ensures Stem(dir + [Sep] + comp) == match ComponentExtDot(comp) case None => comp case Some(d) => comp[..d]
  {
    JoinedExtDot(dir, comp);
    ComponentExtDotOf(comp);
  }

  /** An extension the test suite checks. */
  lemma ExtensionTxtExample()
    ensures Extension("/foo/bar.txt") == ".txt"
  {
    assert "/foo/bar.txt" == "/foo" + [Sep] + "bar.txt";
    JoinedExtDot("/foo", "bar.txt");
    LastIndexAt("bar.txt", '.', 3);
    assert "bar.txt"[3..] == ".txt";
  }

  /** "." has no extension. */
  lemma ExtensionDotExample()
    ensures Extension("/foo/.") == ""
  {
    assert "/foo/." == "/foo" + [Sep] + ".";
    JoinedExtDot("/foo", ".");
    LastIndexAt(".", '.', 0);
  }

  /** ".." has no extension. */
  lemma ExtensionDotDotExample()
    ensures Extension("/foo/..") == ""
  {
    assert "/foo/.." == "/foo" + [Sep] + "..";
    JoinedExtDot("/foo", "..");
    LastIndexAt("..", '.', 1);
  }

  /** A leading dot is not an extension dot. */
  lemma ExtensionHiddenExample()
    ensures Extension("/foo/.hidden") == ""
  {
    assert "/foo/.hidden" == "/foo" + [Sep] + ".hidden";
    JoinedExtDot("/foo", ".hidden");
    LastIndexAt(".hidden", '.', 0);
  }

  /** A second dot after a leading one is. */
  lemma ExtensionDoubleDotExample()
    ensures Extension("/foo/..bar") == ".bar"
  {
    assert "/foo/..bar" == "/foo" + [Sep] + "..bar";
    JoinedExtDot("/foo", "..bar");
    LastIndexAt("..bar", '.', 1);
    assert "..bar"[1..] == ".bar";
  }

  /** Only the last extension is removed. */
  lemma StemMultipleDotsExample()
    ensures Stem("foo.bar.baz.tar") == "foo.bar.baz"
  {
    ComponentExtDotOf("foo.bar.baz.tar");
    LastIndexAt("foo.bar.baz.tar", '.', 11);
    assert "foo.bar.baz.tar"[..11] == "foo.bar.baz";
  }

  /** Filenames and a parent the test suite checks. */
  lemma FilenameParentExamples()
    ensures Filename("/foo/bar/") == "" && Filename("//host") == "host"
    ensures Parent("/") == "/"
  {
    assert "//host" == "/" + [Sep] + "host";
    JoinedExtDot("/", "host");
  }

  /* ----- the trailing-separator case of zis_path_parent ------------------- */

  /** The path without its trailing separators. */
  function TrimTrailingSeps(p: string): (q: string)
    ensures |q| <= |p| && q == p[..|q|]
    ensures q == "" || q[|q| - 1] != Sep
    ensures forall j :: |q| <= j < |p| ==> p[j] == Sep
  {
    if p != [] && p[|p| - 1] == Sep then TrimTrailingSeps(p[..|p| - 1]) else p
  }

  /** As written, a trailing '/' makes `parent` cut inside the last component: "/var/tmp/" gives "/var/tm". */
  lemma ParentTrailingSepAsWritten()
    ensures Parent("/var/tmp/") == "/var/tm"
    ensures Parent("/var/tmp") == "/var"
  {
    assert SkipBackSeps("/var/tmp/", 8) == 7;
    assert "/var/tmp"[..7] == "/var/tm";
    assert "/var/tm"[..6] == "/var/t";
    assert "/var/t"[..5] == "/var/";
  }

  /** `parent` with the trailing separators dropped first, as the walk-back loop evidently intends. */
  function ParentIntended(p: string): string
    requires |p| >= 1
  {
    var q := TrimTrailingSeps(p);
    if q == "" then Parent(p) else Parent(q)
  }

  /** The intended parent ignores a trailing '/', agrees with `parent` elsewhere, and fixes the example. */
  lemma ParentIntendedTrailingSep(p: string)
    requires |p| >= 1
    ensures ParentIntended(p + [Sep]) == ParentIntended(p)
    ensures p[|p| - 1] != Sep ==> ParentIntended(p) == Parent(p)
    ensures ParentIntended("/var/tmp/") == "/var"
  {
    assert (p + [Sep])[..|p|] == p;
    assert TrimTrailingSeps("/var/tmp/") == "/var/tmp" by {
      assert "/var/tmp/"[..8] == "/var/tmp";
    }
    ParentTrailingSepAsWritten();
  }

  /* ----- the buffer-writing functions ------------------------------------ */

  /** `zis_path_copy_n(dst + at, src, |src|)`: `memmove` of the characters, nothing else written. */
  method CopyN(dst: array<char>, at: nat, src: string)
    requires at + |src| <= dst.Length
    modifies dst
    ensures dst[at..at + |src|] == src
    ensures forall k :: 0 <= k < dst.Length && !(at <= k < at + |src|) ==> dst[k] == old(dst[k])
  {
    var i := 0;
    while i < |src|
      invariant i <= |src|
      invariant dst[at..at + i] == src[..i]
      invariant forall k :: 0 <= k < dst.Length && !(at <= k < at + i) ==> dst[k] == old(dst[k])
    {
      dst[at + i] := src[i];
      i := i + 1;
    }
  }

  /** `zis_path_copy`: the path and its NUL; returns the path length. */
  method PathCopy(dst: array<char>, src: string) returns (n: nat)
    requires |src| < dst.Length
    modifies dst
    ensures n == |src| && dst[..n] == src && dst[n] == Nul
    ensures forall k :: n < k < dst.Length ==> dst[k] == old(dst[k])
  {
    CopyN(dst, 0, src + [Nul]);
    assert dst[..|src|] == dst[0..|src| + 1][..|src|];
    n := |src|;
  }

  /** `zis_path_concat_n`: `p1 + p2`, NUL-terminated; the total must stay below `ZIS_PATH_MAX`. */
  method ConcatN(buf: array<char>, p1: string, p2: string) returns (n: nat)
    requires |p1| + |p2| < PathMax && |p1| + |p2| < buf.Length
    modifies buf
    ensures n == |p1| + |p2| && buf[..n] == p1 + p2 && buf[n] == Nul
    ensures forall k :: n < k < buf.Length ==> buf[k] == old(buf[k])
  {
    CopyN(buf, 0, p1);
    CopyN(buf, |p1|, p2 + [Nul]);
    n := |p1| + |p2|;
    assert buf[..n] == buf[0..|p1|] + buf[|p1|..n];
    assert buf[|p1|..n] == buf[|p1|..n + 1][..|p2|];
  }

  /**
   * `zis_path_join_n`.  An absolute `p2` is copied without its NUL, so the
   * buffer is left unterminated in that case.
   */
  method JoinN(buf: array<char>, p1: string, p2: string) returns (n: nat)
    requires |p2| > 0 && p2[0] == Sep ==> |p2| <= buf.Length
    requires !(|p2| > 0 && p2[0] == Sep) ==>
      |p1| >= 1 && |Join(p1, p2)| < PathMax && |Join(p1, p2)| < buf.Length
    modifies buf
    ensures n == |Join(p1, p2)| && buf[..n] == Join(p1, p2)
    ensures !(|p2| > 0 && p2[0] == Sep) ==> buf[n] == Nul
    ensures |p2| > 0 && p2[0] == Sep ==> forall k :: n <= k < buf.Length ==> buf[k] == old(buf[k])
  {
    if |p2| > 0 && p2[0] == Sep {
      CopyN(buf, 0, p2);
      n := |p2|;
      assert buf[..n] == buf[0..|p2|];
      return;
    }
    if p1[|p1| - 1] == Sep {
      n := ConcatN(buf, p1, p2);
      return;
    }
    n := ConcatN(buf, p1 + [Nul], p2);
    buf[|p1|] := Sep;
    assert buf[..n] == p1 + [Sep] + p2;
  }

  /** `zis_path_filename`. */
  method PathFilename(buf: array<char>, path: string) returns (n: nat)
    requires |path| < buf.Length
    modifies buf
    ensures n == |Filename(path)| && buf[..n] == Filename(path) && buf[n] == Nul
  {
    var ls := LastIndex(path, Sep);
    if ls.None? {
      n := PathCopy(buf, path);
      return;
    }
    if ls.value + 1 == |path| {
      buf[0] := Nul;
      return 0;
    }
    n := PathCopy(buf, path[ls.value + 1..]);
  }

  /** `_zis_path_stem_len`: the stem length, computed without a buffer. */
  function StemLen(path: string): (n: nat)
    ensures n == |Stem(path)|
  {
    var ls := LastIndex(path, Sep);
    if ls.Some? && ls.value + 1 == |path| then 0
    else
      var comp := if ls.Some? then path[ls.value + 1..] else path;
      assert comp == Filename(path);
      match ExtDot(comp)
      case Some(d) => d
      case None => |comp|
  }

  /**
   * `zis_path_stem`: with a null buffer only the length; otherwise the
   * filename is copied and cut at the extension dot found in the buffer.
   */
  method PathStem(buf: array?<char>, path: string) returns (n: nat)
    requires NoNul(path)
    requires buf != null ==> |path| < buf.Length
    modifies buf
    ensures n == |Stem(path)|
    ensures buf != null ==> buf[..n] == Stem(path) && buf[n] == Nul
  {
    if buf == null {
      return StemLen(path);
    }
    var ls := LastIndex(path, Sep);
    if ls.Some? && ls.value + 1 == |path| {
      buf[0] := Nul;
      return 0;
    }
    var comp := if ls.Some? then path[ls.value + 1..] else path;
    assert comp == Filename(path);
    n := PathCopy(buf, comp);
    var lastDot := ExtDot(buf[..n]);
    if lastDot.Some? {
      buf[lastDot.value] := Nul;
      n := lastDot.value;
      assert buf[..n] == comp[..n];
    }
  }

  /** `zis_path_extension`: with a null buffer only the length. */
  method PathExtension(buf: array?<char>, path: string) returns (n: nat)
    requires buf != null ==> |path| < buf.Length
    modifies buf
    ensures n == |Extension(path)|
    ensures buf != null ==> buf[..n] == Extension(path) && buf[n] == Nul
  {
    var lastDot := ExtDot(path);
    if lastDot.None? {
      if buf != null {
        buf[0] := Nul;
      }
      return 0;
    }
    if buf != null {
      n := PathCopy(buf, path[lastDot.value..]);
    } else {
      n := |path| - lastDot.value;
    }
  }

  /** `zis_path_parent`, including its walk back over trailing separators. */
  method PathParent(buf: array<char>, path: string) returns (n: nat)
    requires |path| >= 1 && |path| + 3 < PathMax && |path| + 3 < buf.Length
    modifies buf
    ensures n == |Parent(path)| && buf[..n] == Parent(path) && buf[n] == Nul
  {
    var ls := LastIndex(path, Sep);
    if ls.None? {
      n := JoinN(buf, path, "..");
      return;
    }
    var k: nat := ls.value;
    if k + 1 == |path| {
      while k > 0 && path[k] == Sep
        invariant k <= ls.value
        invariant SkipBackSeps(path, k) == SkipBackSeps(path, ls.value)
      {
        k := k - 1;
      }
    }
    if k == 0 {
      buf[0], buf[1] := Sep, Nul;
      assert buf[..1] == [Sep];
      return 1;
    }
    CopyN(buf, 0, path[..k]);
    buf[k] := Nul;
    n := k;
    assert buf[..n] == buf[0..k];
  }

  /** `zis_path_with_extension`: the prefix, then the new extension or just the NUL. */
  method PathWithExtension(buf: array<char>, path: string, newExt: Option<string>) returns (n: nat)
    requires newExt.Some? ==> |WithExtension(path, newExt)| < PathMax
    requires |WithExtension(path, newExt)| < buf.Length
    modifies buf
    ensures n == |WithExtension(path, newExt)| && buf[..n] == WithExtension(path, newExt) && buf[n] == Nul
  {
    var lastDot := ExtDot(path);
    var prefixLen := if lastDot.Some? then lastDot.value else |path|;
    assert path[..prefixLen] == WithExtension(path, None);
    CopyN(buf, 0, path[..prefixLen]);
    if newExt.None? {
      buf[prefixLen] := Nul;
      n := prefixLen;
      assert buf[..n] == buf[0..prefixLen];
      return;
    }
    var ext := newExt.value;
    ghost var prefix := buf[..prefixLen];
    CopyN(buf, prefixLen, ext + [Nul]);
    n := prefixLen + |ext|;
    assert buf[..prefixLen] == prefix;
    assert buf[prefixLen..n] == buf[prefixLen..n + 1][..|ext|];
    assert buf[..n] == buf[..prefixLen] + buf[prefixLen..n];
  }
}
