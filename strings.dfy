/** ASCII models of the Python `str` operations the index builder relies on:
    `lower`, `in`, `endswith`, `replace`, `title`, `rfind`, ordering, and
    joining/splitting on a separator. */
module Strings {

  predicate IsUpperAscii(c: char) { 'A' <= c <= 'Z' }
  predicate IsLowerAscii(c: char) { 'a' <= c <= 'z' }

  /** A cased character, in the ASCII reading of Python's string methods. */
  predicate IsLetter(c: char) { IsUpperAscii(c) || IsLowerAscii(c) }

  function LowerChar(c: char): (d: char)
    ensures IsUpperAscii(c) ==> d as int - 'a' as int == c as int - 'A' as int
    ensures !IsUpperAscii(d)
    ensures IsLetter(d) <==> IsLetter(c)
    ensures !IsLetter(c) ==> d == c
  {
    if IsUpperAscii(c) then (c as int + 32) as char else c
  }

  function UpperChar(c: char): (d: char)
    ensures IsLowerAscii(c) ==> d as int - 'A' as int == c as int - 'a' as int
    ensures !IsLowerAscii(c) ==> d == c
    ensures !IsLowerAscii(d)
    ensures IsLetter(d) <==> IsLetter(c)
    ensures LowerChar(d) == LowerChar(c)
  {
    if IsLowerAscii(c) then (c as int - 32) as char else c
  }

  /** `s.lower()` */
  function Lower(s: string): string
  {
    seq(|s|, i requires 0 <= i < |s| => LowerChar(s[i]))
  }

  lemma LowerAppend(a: string, b: string)
    ensures Lower(a + b) == Lower(a) + Lower(b)
  {
  }

  // ---------------------------------------------------------------------
  // Substrings

  /** `sub` occurs in `s` at index `i`. */
  ghost predicate OccursAt(s: string, sub: string, i: int)
  {
    0 <= i && i + |sub| <= |s| && s[i..i + |sub|] == sub
  }

  lemma ShiftOccurrences(s: string, sub: string)
    requires |s| > 0
    ensures forall i :: OccursAt(s[1..], sub, i) ==> OccursAt(s, sub, i + 1)
    ensures forall j :: OccursAt(s, sub, j) && j > 0 ==> OccursAt(s[1..], sub, j - 1)
  {
    forall i | OccursAt(s[1..], sub, i) ensures OccursAt(s, sub, i + 1) {
      assert s[1..][i..i + |sub|] == s[i + 1..i + 1 + |sub|];
    }
    forall j | OccursAt(s, sub, j) && j > 0 ensures OccursAt(s[1..], sub, j - 1) {
      assert s[1..][j - 1..j - 1 + |sub|] == s[j..j + |sub|];
    }
  }

  /** Python's `sub in s`. */
  function Contains(s: string, sub: string): bool
    decreases |s|
  {
    if |s| < |sub| then false
    else if s[..|sub|] == sub then true
    else Contains(s[1..], sub)
  }

  /** `sub in s` holds exactly when `sub` occurs at some index of `s`. */
  lemma {:induction false} ContainsIffOccurs(s: string, sub: string)
    ensures Contains(s, sub) <==> exists i :: OccursAt(s, sub, i)
    decreases |s|
  {
    if |s| < |sub| {
      forall i ensures !OccursAt(s, sub, i) {
      }
    } else if s[..|sub|] == sub {
      assert OccursAt(s, sub, 0);
    } else {
      ContainsIffOccurs(s[1..], sub);
      ShiftOccurrences(s, sub);
      assert !OccursAt(s, sub, 0);
      if exists j :: OccursAt(s, sub, j) {
        var j :| OccursAt(s, sub, j);
        assert OccursAt(s[1..], sub, j - 1);
      }
    }
  }

  lemma CharOfOccurrence(s: string, sub: string, i: int, k: int)
    requires OccursAt(s, sub, i) && 0 <= k < |sub|
    ensures sub[k] == s[i + k]
  {
    assert s[i..i + |sub|][k] == s[i + k];
  }

  /** An occurrence in `a + b` lies inside `a` when `b` is shorter than `sub`
      and `sub` does not contain the first character of `b`. */
  lemma ContainsAppendShort(a: string, b: string, sub: string)
    requires |b| > 0 && |b| < |sub| && b[0] !in sub
    ensures Contains(a + b, sub) <==> Contains(a, sub)
  {
    ContainsIffOccurs(a + b, sub);
    ContainsIffOccurs(a, sub);
    if Contains(a + b, sub) {
      var i :| OccursAt(a + b, sub, i);
      assert i <= |a|;
      if i + |sub| > |a| {
        CharOfOccurrence(a + b, sub, i, |a| - i);
        assert false;
      }
      assert (a + b)[i..i + |sub|] == a[i..i + |sub|];
      assert OccursAt(a, sub, i);
    }
    if Contains(a, sub) {
      var i :| OccursAt(a, sub, i);
      assert (a + b)[i..i + |sub|] == a[i..i + |sub|];
      assert OccursAt(a + b, sub, i);
    }
  }

  /** A text lacking one of the characters of `sub` does not contain `sub`. */
  lemma NotContainsMissingChar(s: string, sub: string, k: nat)
    requires k < |sub| && sub[k] !in s
    ensures !Contains(s, sub)
  {
    ContainsIffOccurs(s, sub);
    forall i | OccursAt(s, sub, i) ensures false {
      CharOfOccurrence(s, sub, i, k);
    }
  }

  /** Python's `s.endswith(suffix)`. */
  predicate EndsWith(s: string, suffix: string)
  {
    |suffix| <= |s| && s[|s| - |suffix|..] == suffix
  }

  /** Python's `s.rfind(c)` for one character: the last index of `c`, or -1. */
  function RFind(s: string, c: char): (i: int)
    ensures -1 <= i < |s|
    ensures 0 <= i ==> s[i] == c
    ensures forall j :: i < j < |s| ==> s[j] != c
  {
    if s == [] then -1
    else if s[|s| - 1] == c then |s| - 1
    else RFind(s[..|s| - 1], c)
  }

  // ---------------------------------------------------------------------
  // Replacing and title-casing

  /** `s.replace(from, to)` for single characters. */
  function ReplaceChar(s: string, from: char, to: char): string
  {
    seq(|s|, i requires 0 <= i < |s| => if s[i] == from then to else s[i])
  }

  /** `s.replace("-", " ").replace("_", " ")`: every hyphen and underscore
      becomes a space and nothing else changes. */
  function SeparatorsToSpaces(s: string): (r: string)
    ensures |r| == |s|
    ensures '-' !in r && '_' !in r
    ensures forall i :: 0 <= i < |s| ==> r[i] == (if s[i] == '-' || s[i] == '_' then ' ' else s[i])
  {
    ReplaceChar(ReplaceChar(s, '-', ' '), '_', ' ')
  }

  /** What Python's `str.title` puts at position `i` of `s`: a letter that starts
      the string or follows a non-letter is upper-cased, every other letter is
      lower-cased, and non-letters stay. */
  function TitleCharAt(s: string, i: nat): char
    requires i < |s|
  {
    if !IsLetter(s[i]) then s[i]
    else if i > 0 && IsLetter(s[i - 1]) then LowerChar(s[i])
    else UpperChar(s[i])
  }

  /** The left-to-right scan that implements `str.title`; `prevCased` says
      whether the character scanned just before `s` was a letter. */
  function TitleScan(s: string, prevCased: bool): (r: string)
    ensures |r| == |s|
    ensures |s| > 0 ==> r[0] == (if !IsLetter(s[0]) then s[0]
                                 else if prevCased then LowerChar(s[0])
                                 else UpperChar(s[0]))
    ensures forall i :: 0 < i < |s| ==> r[i] == TitleCharAt(s, i)
  {
    if s == [] then []
    else
      var c := if !IsLetter(s[0]) then s[0] else if prevCased then LowerChar(s[0]) else UpperChar(s[0]);
      var rest := TitleScan(s[1..], IsLetter(s[0]));
      assert forall i :: 1 < i < |s| ==> rest[i - 1] == TitleCharAt(s[1..], i - 1) == TitleCharAt(s, i);
      [c] + rest
  }

  /** `s.title()` */
  function Title(s: string): (r: string)
    ensures |r| == |s|
    ensures forall i :: 0 <= i < |s| ==> r[i] == TitleCharAt(s, i)
  {
    TitleScan(s, false)
  }

  /** Characters equal up to case are both letters or both not, and
      upper-case alike. */
  lemma CaseFoldAgrees(c: char, d: char)
    requires LowerChar(c) == LowerChar(d)
    ensures IsLetter(c) <==> IsLetter(d)
    ensures UpperChar(c) == UpperChar(d)
  {
  }

  /** `str.title` looks at letters only up to case: texts equal up to case
      title-case alike. */
  lemma TitleIgnoresCase(x: string, y: string)
    requires Lower(x) == Lower(y)
    ensures Title(x) == Title(y)
  {
    assert |x| == |Lower(x)| == |y|;
    forall i | 0 <= i < |x| ensures TitleCharAt(x, i) == TitleCharAt(y, i) {
      assert LowerChar(x[i]) == Lower(x)[i] == LowerChar(y[i]);
      CaseFoldAgrees(x[i], y[i]);
      if i > 0 {
        assert LowerChar(x[i - 1]) == Lower(x)[i - 1] == LowerChar(y[i - 1]);
        CaseFoldAgrees(x[i - 1], y[i - 1]);
      }
    }
  }

  /** Title-casing changes letter case and nothing else, starts every word with
      a capital and leaves the rest of each word in lower case. */
  lemma TitleOnlyChangesCase(s: string)
    ensures Lower(Title(s)) == Lower(s)
    ensures forall i :: 0 <= i < |s| && IsLetter(s[i]) && (i == 0 || !IsLetter(s[i - 1])) ==> IsUpperAscii(Title(s)[i])
    ensures forall i :: 0 < i < |s| && IsLetter(s[i]) && IsLetter(s[i - 1]) ==> IsLowerAscii(Title(s)[i])
  {
    var t := Title(s);
    forall i | 0 <= i < |s| ensures LowerChar(t[i]) == LowerChar(s[i]) {
    }
  }

  // ---------------------------------------------------------------------
  // Ordering

  /** Python's `a <= b` on strings: lexicographic by code point. */
  predicate LexLe(a: string, b: string)
    decreases |a|
  {
    a == [] || (b != [] && (a[0] < b[0] || (a[0] == b[0] && LexLe(a[1..], b[1..]))))
  }

  lemma {:induction false} LexLeReflexive(a: string)
    ensures LexLe(a, a)
    decreases |a|
  {
    if a != [] {
      LexLeReflexive(a[1..]);
    }
  }

  lemma {:induction false} LexLeTotal(a: string, b: string)
    ensures LexLe(a, b) || LexLe(b, a)
    decreases |a|
  {
    if a != [] && b != [] && a[0] == b[0] {
      LexLeTotal(a[1..], b[1..]);
    }
  }

  lemma {:induction false} LexLeTransitive(a: string, b: string, c: string)
    requires LexLe(a, b) && LexLe(b, c)
    ensures LexLe(a, c)
    decreases |a|
  {
    if a != [] && a[0] == b[0] && b[0] == c[0] {
      LexLeTransitive(a[1..], b[1..], c[1..]);
    }
  }

  lemma {:induction false} LexLeAntisymmetric(a: string, b: string)
    requires LexLe(a, b) && LexLe(b, a)
    ensures a == b
    decreases |a|
  {
    if a != [] {
      LexLeAntisymmetric(a[1..], b[1..]);
      assert a == [a[0]] + a[1..];
      assert b == [b[0]] + b[1..];
    }
  }

  // ---------------------------------------------------------------------
  // Joining and splitting on a separator

  /** `sep.join(parts)` */
  function Join(parts: seq<string>, sep: char): string
  {
    if |parts| == 0 then ""
    else if |parts| == 1 then parts[0]
    else parts[0] + [sep] + Join(parts[1..], sep)
  }

  /** The first index of `c` in `s`. */
  function IndexOf(s: string, c: char): (i: nat)
    requires c in s
    ensures i < |s| && s[i] == c && c !in s[..i]
  {
    if s[0] == c then 0 else 1 + IndexOf(s[1..], c)
  }

  /** `s.split(sep)` for a one-character separator. */
  function Split(s: string, sep: char): (parts: seq<string>)
    ensures |parts| >= 1
    ensures forall i :: 0 <= i < |parts| ==> sep !in parts[i]
    decreases |s|
  {
    if sep !in s then [s]
    else
      var i := IndexOf(s, sep);
      [s[..i]] + Split(s[i + 1..], sep)
  }

  lemma IndexOfAfterPrefix(p: string, sep: char, rest: string)
    requires sep !in p
    ensures sep in p + [sep] + rest && IndexOf(p + [sep] + rest, sep) == |p|
  {
    var s := p + [sep] + rest;
    assert s[|p|] == sep;
    assert s[..|p|] == p;
  }

  /** Splitting undoes joining, when no part contains the separator. */
  lemma {:induction false} SplitJoin(parts: seq<string>, sep: char)
    requires |parts| >= 1
    requires forall i :: 0 <= i < |parts| ==> sep !in parts[i]
    ensures Split(Join(parts, sep), sep) == parts
  {
    if |parts| > 1 {
      var s := Join(parts, sep);
      var rest := Join(parts[1..], sep);
      assert s == parts[0] + [sep] + rest;
      IndexOfAfterPrefix(parts[0], sep, rest);
      var i := |parts[0]|;
      assert s[..i] == parts[0];
      assert s[i + 1..] == rest;
      assert Split(s, sep) == [parts[0]] + Split(rest, sep);
      SplitJoin(parts[1..], sep);
      assert parts == [parts[0]] + parts[1..];
    }
  }

  /** Joining undoes splitting. */
  lemma {:induction false} JoinSplit(s: string, sep: char)
    ensures Join(Split(s, sep), sep) == s
    decreases |s|
  {
    if sep in s {
      var i := IndexOf(s, sep);
      JoinSplit(s[i + 1..], sep);
      var tail := Split(s[i + 1..], sep);
      assert Split(s, sep) == [s[..i]] + tail;
      assert ([s[..i]] + tail)[1..] == tail;
      assert s == s[..i] + [sep] + s[i + 1..];
    }
  }
}
