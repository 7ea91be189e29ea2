/**
  Characters and strings as the two runtimes that the repository is written
  for see them: JavaScript (the editor plugin) and Python 3 (the corpus
  scripts). Strings are sequences of Unicode scalar values.
 */
module Text {
  import opened Wrappers

  /** JavaScript's `\s` class; `String.prototype.trim` strips the same set. */
  predicate IsJsSpace(c: char) {
    (9 <= c as int <= 13) || c == ' ' || c as int == 0xA0 || c as int == 0x1680
    || (0x2000 <= c as int <= 0x200A) || c as int == 0x2028 || c as int == 0x2029
    || c as int == 0x202F || c as int == 0x205F || c as int == 0x3000 || c as int == 0xFEFF
  }

  /** The line terminators of JavaScript: where `^` and `$` hold in multiline mode, and what `.` refuses. */
  predicate IsJsLineTerminator(c: char) {
    c == '\n' || c == '\r' || c as int == 0x2028 || c as int == 0x2029
  }

  predicate IsNotJsLineTerminator(c: char) { !IsJsLineTerminator(c) }

  /** Python's `\s` class for `str` patterns (the characters for which `str.isspace()` holds). */
  predicate IsPySpace(c: char) {
    (9 <= c as int <= 13) || (0x1C <= c as int <= 0x20) || c as int == 0x85 || c as int == 0xA0
    || c as int == 0x1680 || (0x2000 <= c as int <= 0x200A) || c as int == 0x2028
    || c as int == 0x2029 || c as int == 0x202F || c as int == 0x205F || c as int == 0x3000
  }

  predicate IsAsciiLetter(c: char) { ('a' <= c <= 'z') || ('A' <= c <= 'Z') }

  predicate IsAsciiDigit(c: char) { '0' <= c <= '9' }

  /** JavaScript's `\w`: `[A-Za-z0-9_]`. */
  predicate IsWordChar(c: char) { IsAsciiLetter(c) || IsAsciiDigit(c) || c == '_' }

  predicate IsQuote(c: char) { c == '"' || c == '\'' }

  predicate IsNotQuote(c: char) { !IsQuote(c) }

  /** Case mapping of `toLowerCase`, restricted to ASCII letters. */
  function LowerChar(c: char): char {
    if 'A' <= c <= 'Z' then (c as int + 32) as char else c
  }

  function Lower(s: string): (r: string)
    ensures |r| == |s|
    ensures forall i :: 0 <= i < |s| ==> r[i] == LowerChar(s[i])
  {
    seq(|s|, i requires 0 <= i < |s| => LowerChar(s[i]))
  }

  /** `toLowerCase` leaves no capital letter, and lowering twice is lowering once. */
  lemma LowerProperties(s: string)
    ensures forall c :: c in Lower(s) ==> !('A' <= c <= 'Z')
    ensures Lower(Lower(s)) == Lower(s)
  {
    var r := Lower(s);
    assert forall i :: 0 <= i < |r| ==> !('A' <= r[i] <= 'Z');
    assert forall i :: 0 <= i < |r| ==> LowerChar(r[i]) == r[i];
  }

  /** A slice of a slice is a slice. */
  lemma SliceOfSlice<T>(s: seq<T>, p: nat, e: nat, i: nat, j: nat)
    requires p <= e <= |s| && i <= j <= e - p
    ensures s[p..e][i..j] == s[p + i..p + j]
  {
    var l := s[p..e][i..j];
    var r := s[p + i..p + j];
    assert |l| == |r|;
    forall k | 0 <= k < |l| ensures l[k] == r[k] {
      assert l[k] == s[p..e][i + k] == s[p + i + k];
    }
  }

  /** `sub` occurs in `s` starting at index `i`. */
  predicate OccursAt(s: string, sub: string, i: int) {
    0 <= i && i + |sub| <= |s| && s[i..i + |sub|] == sub
  }

  /** Python's `sub in s` and JavaScript's `s.includes(sub)`. */
  predicate Contains(s: string, sub: string) {
    exists i :: 0 <= i <= |s| - |sub| && OccursAt(s, sub, i)
  }

  /** Index of the first occurrence of `x`, as `indexOf` gives it (None for -1). */
  function IndexOf<T(==)>(s: seq<T>, x: T): (r: Option<nat>)
    ensures r.None? ==> x !in s
    ensures r.Some? ==> r.value < |s| && s[r.value] == x && x !in s[..r.value]
  {
    if |s| == 0 then None
    else if s[0] == x then Some(0)
    else
      match IndexOf(s[1..], x)
      case None => None
      case Some(i) => assert s[1..][..i] == s[1..i + 1]; Some(i + 1)
  }

  /** Index of the last occurrence of `x`, as `lastIndexOf` gives it (None for -1). */
  function LastIndexOf<T(==)>(s: seq<T>, x: T): (r: Option<nat>)
    ensures r.None? ==> x !in s
    ensures r.Some? ==> r.value < |s| && s[r.value] == x && x !in s[r.value + 1..]
  {
    if |s| == 0 then None
    else if s[|s| - 1] == x then Some(|s| - 1)
    else
      match LastIndexOf(s[..|s| - 1], x)
      case None => None
      case Some(i) => assert s[i + 1..] == s[..|s| - 1][i + 1..] + [s[|s| - 1]]; Some(i)
  }

  /** Index of the first occurrence of `sub` at or after `from`. */
  function FindFrom(s: string, sub: string, from: nat): (r: Option<nat>)
    requires |sub| > 0
    ensures r.Some? ==> from <= r.value && OccursAt(s, sub, r.value)
    ensures r.Some? ==> forall i :: from <= i < r.value ==> !OccursAt(s, sub, i)
    ensures r.None? ==> forall i :: from <= i ==> !OccursAt(s, sub, i)
    decreases |s| - from
  {
    if from + |sub| > |s| then None
    else if OccursAt(s, sub, from) then Some(from)
    else FindFrom(s, sub, from + 1)
  }

  /** The text before the first occurrence of `sep`: element 0 of `s.split(sep)`. */
  function BeforeFirst(s: string, sep: string): (r: string)
    requires |sep| > 0
    ensures r <= s
    ensures forall i :: 0 <= i < |r| ==> !OccursAt(s, sep, i)
    ensures r == s || OccursAt(s, sep, |r|)
  {
    match FindFrom(s, sep, 0)
    case None => s
    case Some(i) => s[..i]
  }

  /** `s.split(sep)` for a one-character separator (the same in JavaScript and Python). */
  function SplitOn(s: string, sep: char): (parts: seq<string>)
    ensures |parts| >= 1
    ensures forall i :: 0 <= i < |parts| ==> sep !in parts[i]
    decreases |s|
  {
    match IndexOf(s, sep)
    case None => [s]
    case Some(i) => [s[..i]] + SplitOn(s[i + 1..], sep)
  }

  /** `sep.join(parts)` in Python. */
  function Join(parts: seq<string>, sep: string): string
    decreases |parts|
  {
    if |parts| == 0 then ""
    else if |parts| == 1 then parts[0]
    else parts[0] + sep + Join(parts[1..], sep)
  }

  /** Joining the pieces of a split gives back the text. */
  lemma {:induction false} JoinSplitOn(s: string, sep: char)
    ensures Join(SplitOn(s, sep), [sep]) == s
    decreases |s|
  {
    match IndexOf(s, sep)
    case None =>
    case Some(i) =>
      var rest := SplitOn(s[i + 1..], sep);
      JoinSplitOn(s[i + 1..], sep);
      var parts := [s[..i]] + rest;
      assert SplitOn(s, sep) == parts;
      assert parts[0] == s[..i] && parts[1..] == rest;
      assert Join(parts, [sep]) == s[..i] + [sep] + Join(rest, [sep]);
      assert s == s[..i] + [sep] + s[i + 1..];
  }

  /** Joining two non-empty lists of pieces puts the separator between their joins. */
  lemma {:induction false} JoinAppend(a: seq<string>, b: seq<string>, sep: string)
    requires |a| > 0 && |b| > 0
    ensures Join(a + b, sep) == Join(a, sep) + sep + Join(b, sep)
    decreases |a|
  {
    if |a| == 1 {
      assert a + b == [a[0]] + b;
      assert (a + b)[1..] == b;
    } else {
      JoinAppend(a[1..], b, sep);
      assert (a + b)[1..] == a[1..] + b;
    }
  }

  /** `s.replace(from, to)` for single characters (every occurrence is replaced). */
  function ReplaceChar(s: string, from: char, to: char): (r: string)
    ensures |r| == |s|
    ensures forall i :: 0 <= i < |s| ==> r[i] == if s[i] == from then to else s[i]
  {
    seq(|s|, i requires 0 <= i < |s| => if s[i] == from then to else s[i])
  }

  /** After replacing `from` by another character no `from` is left, and replacing again changes nothing. */
  lemma ReplaceCharProperties(s: string, from: char, to: char)
    ensures from != to ==> from !in ReplaceChar(s, from, to)
    ensures ReplaceChar(ReplaceChar(s, from, to), from, to) == ReplaceChar(s, from, to)
    ensures forall c :: c in s && c != from ==> c in ReplaceChar(s, from, to)
  {
    var r := ReplaceChar(s, from, to);
    assert forall i :: 0 <= i < |r| ==> r[i] == to || r[i] != from;
    forall c | c in s && c != from ensures c in r {
      var i :| 0 <= i < |s| && s[i] == c;
      assert r[i] == c;
    }
  }

  /** `String.prototype.trim`: strip JavaScript white space at both ends. */
  function TrimJs(s: string): (r: string)
    ensures |r| <= |s|
    ensures |r| == 0 || (!IsJsSpace(r[0]) && !IsJsSpace(r[|r| - 1]))
    decreases |s|
  {
    if |s| > 0 && IsJsSpace(s[0]) then TrimJs(s[1..])
    else if |s| > 0 && IsJsSpace(s[|s| - 1]) then TrimJs(s[..|s| - 1])
    else s
  }

  /** `r` is `s[i..]` up to a tail, and everything of `s` around it is white space. */
  predicate TrimmedFrom(s: string, r: string, i: nat) {
    i + |r| <= |s| && r == s[i..i + |r|]
    && (forall j :: 0 <= j < i ==> IsJsSpace(s[j]))
    && (forall j :: i + |r| <= j < |s| ==> IsJsSpace(s[j]))
  }

  lemma TrimmedFromCons(s: string, r: string, i: nat)
    requires |s| > 0 && IsJsSpace(s[0]) && TrimmedFrom(s[1..], r, i)
    ensures TrimmedFrom(s, r, i + 1)
  {
    var t := s[1..];
    SliceOfSlice(s, 1, |s|, i, i + |r|);
    assert forall j :: 1 <= j < |s| ==> s[j] == t[j - 1];
  }

  lemma TrimmedFromSnoc(s: string, r: string, i: nat)
    requires |s| > 0 && IsJsSpace(s[|s| - 1]) && TrimmedFrom(s[..|s| - 1], r, i)
    ensures TrimmedFrom(s, r, i)
  {
    var t := s[..|s| - 1];
    SliceOfSlice(s, 0, |s| - 1, i, i + |r|);
    assert forall j :: 0 <= j < |t| ==> s[j] == t[j];
  }

  /** `trim` removes white space from the ends and nothing else. */
  lemma {:induction false} TrimJsInfix(s: string)
    ensures exists i: nat :: TrimmedFrom(s, TrimJs(s), i)
    decreases |s|
  {
    if |s| > 0 && IsJsSpace(s[0]) {
      TrimJsInfix(s[1..]);
      var i: nat :| TrimmedFrom(s[1..], TrimJs(s[1..]), i);
      TrimmedFromCons(s, TrimJs(s[1..]), i);
      assert TrimJs(s) == TrimJs(s[1..]);
      assert TrimmedFrom(s, TrimJs(s), i + 1);
    } else if |s| > 0 && IsJsSpace(s[|s| - 1]) {
      TrimJsInfix(s[..|s| - 1]);
      var i: nat :| TrimmedFrom(s[..|s| - 1], TrimJs(s[..|s| - 1]), i);
      TrimmedFromSnoc(s, TrimJs(s[..|s| - 1]), i);
      assert TrimJs(s) == TrimJs(s[..|s| - 1]);
      assert TrimmedFrom(s, TrimJs(s), i);
    } else {
      assert TrimJs(s) == s;
      assert s[0..|s|] == s;
      assert TrimmedFrom(s, s, 0);
    }
  }



  /** `str.upper()`, restricted to ASCII letters. */
  function Upper(s: string): (r: string)
    ensures |r| == |s|
    ensures forall i :: 0 <= i < |s| ==> r[i] == if 'a' <= s[i] <= 'z' then (s[i] as int - 32) as char else s[i]
  {
    seq(|s|, i requires 0 <= i < |s| => if 'a' <= s[i] <= 'z' then (s[i] as int - 32) as char else s[i])
  }

  /** `upper` leaves no small ASCII letter, and upper-casing twice is upper-casing once. */
  lemma UpperProperties(s: string)
    ensures forall c :: c in Upper(s) ==> !('a' <= c <= 'z')
    ensures Upper(Upper(s)) == Upper(s)
  {
    var r := Upper(s);
    assert forall i :: 0 <= i < |r| ==> !('a' <= r[i] <= 'z');
  }

  /** `str.rstrip()`: drop the white space at the end. */
  function RStrip(s: string): (r: string)
    ensures r <= s && (|r| == 0 || !IsPySpace(r[|r| - 1]))
    ensures forall i :: |r| <= i < |s| ==> IsPySpace(s[i])
    decreases |s|
  {
    if |s| > 0 && IsPySpace(s[|s| - 1]) then RStrip(s[..|s| - 1]) else s
  }
}
