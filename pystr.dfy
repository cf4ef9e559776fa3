/**
 * The Python string operations the line counter and the doc-string
 * collector are written with: white space as `str.isspace` sees it,
 * `strip`, `startswith`, `endswith`, `find` and `rfind`.
 */
module PyStr {

  /** `str.isspace` for one character. */
  predicate IsSpace(c: char) {
    || c == ' ' || ('\t' <= c <= '\r') || (0x1c as char <= c <= 0x1f as char)
    || c == 0x85 as char || c == 0xa0 as char || c == 0x1680 as char
    || (0x2000 as char <= c <= 0x200a as char) || c == 0x2028 as char || c == 0x2029 as char
    || c == 0x202f as char || c == 0x205f as char || c == 0x3000 as char
  }

  /** `s.lstrip()`: `s` without its leading white space. */
  function LStrip(s: string): (r: string)
    ensures |r| <= |s|
    ensures r != [] ==> !IsSpace(r[0])
  {
    if s != [] && IsSpace(s[0]) then LStrip(s[1..]) else s
  }

  /** `lstrip` removes a prefix of white space and keeps the rest. */
  lemma {:induction false} LStripSpaces(s: string)
    ensures LStrip(s) == s[|s| - |LStrip(s)|..]
    ensures forall i :: 0 <= i < |s| - |LStrip(s)| ==> IsSpace(s[i])
    decreases |s|
  {
    if s != [] && IsSpace(s[0]) {
      LStripSpaces(s[1..]);
    }
  }

  /** `s.rstrip()`: `s` without its trailing white space. */
  function RStrip(s: string): (r: string)
    ensures |r| <= |s|
    ensures r != [] ==> !IsSpace(r[|r| - 1]) && r[0] == s[0]
  {
    if s != [] && IsSpace(s[|s| - 1]) then RStrip(s[..|s| - 1]) else s
  }

  /** `rstrip` removes a suffix of white space and keeps the rest. */
  lemma {:induction false} RStripSpaces(s: string)
    ensures RStrip(s) == s[..|RStrip(s)|]
    ensures forall i :: |RStrip(s)| <= i < |s| ==> IsSpace(s[i])
    decreases |s|
  {
    if s != [] && IsSpace(s[|s| - 1]) {
      RStripSpaces(s[..|s| - 1]);
    }
  }

  /** A string with no white space at either end. */
  predicate Stripped(s: string) {
    s == [] || (!IsSpace(s[0]) && !IsSpace(s[|s| - 1]))
  }

  /** `s.strip()`: a stripped middle part of `s`, with only white space around it. */
  function Strip(s: string): (r: string)
    ensures Stripped(r) && |r| <= |s|
  {
    RStrip(LStrip(s))
  }

  /** Stripping twice is stripping once. */
  lemma StripTwice(s: string)
    ensures Strip(Strip(s)) == Strip(s)
  {
    StrippedFixed(Strip(s));
  }

  /** A stripped string is its own strip. */
  lemma StrippedFixed(s: string)
    requires Stripped(s)
    ensures LStrip(s) == s && RStrip(s) == s && Strip(s) == s
  {
  }

  /** `s.startswith(p)`. */
  predicate StartsWith(s: string, p: string) {
    |p| <= |s| && s[..|p|] == p
  }

  /** `s.endswith(p)`. */
  predicate EndsWith(s: string, p: string) {
    |p| <= |s| && s[|s| - |p|..] == p
  }

  /** `sub` occurs in `s` at position `i`. */
  predicate OccursAt(s: string, sub: string, i: nat) {
    i + |sub| <= |s| && s[i..i + |sub|] == sub
  }

  /** The first occurrence of `sub` at or after `i`, or -1. */
  function FindFrom(s: string, sub: string, i: nat): (r: int)
    ensures r == -1 || (0 <= i <= r && r + |sub| <= |s|)
    decreases |s| + 1 - i
  {
    if i + |sub| > |s| then -1
    else if OccursAt(s, sub, i) then i
    else FindFrom(s, sub, i + 1)
  }

  /** No occurrence from `i` on comes before the one `FindFrom` reports. */
  lemma {:induction false} FindFromFirst(s: string, sub: string, i: nat)
    ensures FindFrom(s, sub, i) == -1 || OccursAt(s, sub, FindFrom(s, sub, i))
    ensures forall j :: i <= j && (FindFrom(s, sub, i) == -1 || j < FindFrom(s, sub, i)) ==> !OccursAt(s, sub, j)
    decreases |s| + 1 - i
  {
    if i + |sub| <= |s| && !OccursAt(s, sub, i) {
      FindFromFirst(s, sub, i + 1);
    }
  }

  /** `s.find(sub)`: the first position of `sub` in `s`, or -1. */
  function Find(s: string, sub: string): (r: int)
    ensures r == -1 || (0 <= r && r + |sub| <= |s|)
  {
    FindFrom(s, sub, 0)
  }

  /** `find` reports an occurrence; none comes before it, and none at all when it reports -1. */
  lemma FindFirst(s: string, sub: string)
    ensures Find(s, sub) == -1 || OccursAt(s, sub, Find(s, sub))
    ensures forall j: nat :: (Find(s, sub) == -1 || j < Find(s, sub)) ==> !OccursAt(s, sub, j)
  {
    FindFromFirst(s, sub, 0);
  }

  /** The last occurrence of `sub` starting before `i`, or -1. */
  function RFindBelow(s: string, sub: string, i: nat): (r: int)
    ensures r == -1 || (0 <= r < i && r + |sub| <= |s|)
  {
    if i == 0 then -1
    else if OccursAt(s, sub, i - 1) then i - 1
    else RFindBelow(s, sub, i - 1)
  }

  /** No occurrence before `i` comes after the one `RFindBelow` reports. */
  lemma {:induction false} RFindBelowLast(s: string, sub: string, i: nat)
    ensures RFindBelow(s, sub, i) == -1 || OccursAt(s, sub, RFindBelow(s, sub, i))
    ensures forall j: nat :: j < i && RFindBelow(s, sub, i) < j ==> !OccursAt(s, sub, j)
  {
    if i != 0 && !OccursAt(s, sub, i - 1) {
      RFindBelowLast(s, sub, i - 1);
    }
  }

  /** `s.rfind(sub)`: the last position of `sub` in `s`, or -1. */
  function RFind(s: string, sub: string): (r: int)
    ensures r == -1 || (0 <= r && r + |sub| <= |s|)
  {
    RFindBelow(s, sub, |s| + 1)
  }

  /** `rfind` reports an occurrence; none comes after it, and none at all when it reports -1. */
  lemma RFindLast(s: string, sub: string)
    ensures RFind(s, sub) == -1 || OccursAt(s, sub, RFind(s, sub))
    ensures forall j: nat :: RFind(s, sub) < j ==> !OccursAt(s, sub, j)
  {
    RFindBelowLast(s, sub, |s| + 1);
  }

  /** `find` and `rfind` agree on whether `sub` occurs at all. */
  lemma FindRFind(s: string, sub: string)
    ensures Find(s, sub) == -1 <==> RFind(s, sub) == -1
    ensures Find(s, sub) != -1 ==> Find(s, sub) <= RFind(s, sub)
  {
    FindFirst(s, sub);
    RFindLast(s, sub);
    var f := Find(s, sub);
    var l := RFind(s, sub);
    if f != -1 {
      assert OccursAt(s, sub, f as nat);
    }
    if l != -1 {
      assert OccursAt(s, sub, l as nat);
    }
  }

  /** `sub` occurs somewhere in `s`. */
  ghost predicate Occurs(s: string, sub: string) {
    exists i: nat :: OccursAt(s, sub, i)
  }

  /** `sub` occurs in `s` at exactly one position. */
  ghost predicate OccursOnce(s: string, sub: string) {
    Occurs(s, sub) && forall i: nat, j: nat :: OccursAt(s, sub, i) && OccursAt(s, sub, j) ==> i == j
  }

  /** Some occurrence of `a` in `s` starts before some occurrence of `b`. */
  ghost predicate OccursBefore(s: string, a: string, b: string) {
    exists i: nat, j: nat :: OccursAt(s, a, i) && OccursAt(s, b, j) && i < j
  }

  /** `find` reports -1 exactly when `sub` does not occur, and so does `rfind`. */
  lemma FindOccurs(s: string, sub: string)
    ensures Find(s, sub) != -1 <==> Occurs(s, sub)
    ensures RFind(s, sub) != -1 <==> Occurs(s, sub)
  {
    FindFirst(s, sub);
    RFindLast(s, sub);
    if Occurs(s, sub) {
      var i: nat :| OccursAt(s, sub, i);
    }
  }

  /** `sub` occurs once exactly when it occurs and its first and last positions agree. */
  lemma OnceFirstLast(s: string, sub: string)
    ensures OccursOnce(s, sub) <==> Find(s, sub) != -1 && Find(s, sub) == RFind(s, sub)
  {
    FindOccurs(s, sub);
    FindFirst(s, sub);
    RFindLast(s, sub);
    var f := Find(s, sub);
    var l := RFind(s, sub);
    if f != -1 && f == l {
      forall i: nat, j: nat | OccursAt(s, sub, i) && OccursAt(s, sub, j)
        ensures i == j
      {
      }
    }
    if OccursOnce(s, sub) {
      assert OccursAt(s, sub, f as nat) && OccursAt(s, sub, l as nat);
    }
  }

  /** `a` occurs before `b` exactly when the first `a` starts before the last `b`. */
  lemma BeforeFirstLast(s: string, a: string, b: string)
    ensures OccursBefore(s, a, b) <==> Find(s, a) != -1 && RFind(s, b) != -1 && Find(s, a) < RFind(s, b)
  {
    FindFirst(s, a);
    RFindLast(s, b);
    var f := Find(s, a);
    var l := RFind(s, b);
    if f != -1 && l != -1 && f < l {
      assert OccursAt(s, a, f as nat) && OccursAt(s, b, l as nat);
    }
  }
}
