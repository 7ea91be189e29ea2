/**
  The fixed regular expressions of the editor plugin and of the corpus
  scripts, each written as a deterministic recogniser over `seq<char>`.

  Every recogniser returns the match that the backtracking engine would
  report when the regex is tried at one position: the first success in the
  engine's priority order (greedy quantifiers longest first, alternatives
  left to right). The comments at each recogniser say why the choices the
  engine could backtrack over cannot lead to another match. None of these
  regexes can match the empty string, so a scan never needs the
  "bump `lastIndex` after an empty match" step.
 */
module Patterns {
  import opened Wrappers
  import opened Text

  /** Which regex engine interprets `\s` and `.`. */
  datatype Dialect = Js | Py

  /** Python's `.` without DOTALL refuses only `\n`. */
  predicate IsNotNewline(c: char) { c != '\n' }

  function SpaceClass(d: Dialect): char -> bool {
    if d == Js then IsJsSpace else IsPySpace
  }

  function DotClass(d: Dialect): char -> bool {
    if d == Js then IsNotJsLineTerminator else IsNotNewline
  }

  /** `[^;\s]` in JavaScript. */
  predicate IsJsPathChar(c: char) { c != ';' && !IsJsSpace(c) }

  /** `[^;\s]` in Python. */
  predicate IsPyPathChar(c: char) { c != ';' && !IsPySpace(c) }

  /** `[^;\s,]` (and `[^\s,;]`) in Python. */
  predicate IsPhpNameChar(c: char) { c != ';' && c != ',' && !IsPySpace(c) }

  /** `[^{\s]` in Python. */
  predicate IsPhpPrefixChar(c: char) { c != '{' && !IsPySpace(c) }

  predicate IsNotCloseBrace(c: char) { c != '}' }

  predicate IsNotSemicolon(c: char) { c != ';' }

  predicate IsNotComma(c: char) { c != ',' }

  /** `[\w\.]` in JavaScript. */
  predicate IsWordOrDot(c: char) { IsWordChar(c) || c == '.' }

  /** `[=<>]`. */
  predicate IsComparison(c: char) { c == '=' || c == '<' || c == '>' }

  /** The end of the longest run of `keep` characters starting at `p`. */
  function Skip(s: string, p: nat, keep: char -> bool): (q: nat)
    requires p <= |s|
    ensures p <= q <= |s|
    ensures forall i :: p <= i < q ==> keep(s[i])
    ensures q == |s| || !keep(s[q])
    decreases |s| - p
  {
    if p == |s| || !keep(s[p]) then p else Skip(s, p + 1, keep)
  }

  /** The largest `j` in `[lo, hi)` with `keep(s[j])`. */
  function LastKept(s: string, lo: nat, hi: nat, keep: char -> bool): (r: Option<nat>)
    requires hi <= |s|
    ensures r.Some? ==> (lo <= r.value < hi && keep(s[r.value])
      && forall j :: r.value < j < hi ==> !keep(s[j]))
    ensures r.None? ==> forall j :: lo <= j < hi ==> !keep(s[j])
    decreases hi
  {
    if hi <= lo then None
    else if keep(s[hi - 1]) then Some(hi - 1)
    else LastKept(s, lo, hi - 1, keep)
  }

  /** `^` under the JavaScript `m` flag. */
  predicate AtLineStart(s: string, p: nat)
    requires p <= |s|
  {
    p == 0 || IsJsLineTerminator(s[p - 1])
  }

  /**
    `(?:^|sep)` without the multiline flag: where the rest of the pattern
    starts. `^` holds only at 0. At 0 with `s[0] == sep` the `^` branch is
    followed by `\s*` and a letter or a name character in every pattern that
    uses this, which `sep` is not, so only the `sep` branch can succeed.
   */
  function LeadIn(s: string, p: nat, sep: char): (r: Option<nat>)
    requires p <= |s|
    ensures r.Some? ==> p <= r.value <= |s| && (r.value == p + 1 ==> s[p] == sep)
    ensures r.Some? ==> r.value == p + 1 || (p == 0 && r.value == 0)
  {
    if p < |s| && s[p] == sep then Some(p + 1)
    else if p == 0 then Some(0)
    else None
  }

  /** One match: the capture groups in order, and where the match ends. */
  datatype Match = Match(groups: seq<string>, end: nat)

  /** A match together with the index where it starts (`m.index`). */
  datatype Found = Found(index: nat, m: Match)

  // ---------------------------------------------------------------- plugin

  /**
    `^\s*import ([^;\s]+)\s*;`. A shorter `\s*` or a shorter group leaves a
    character that the next item cannot take, so both are maximal.
   */
  function PluginJavaImportAt(s: string, p: nat): (r: Option<Match>)
    requires p <= |s|
    ensures r.Some? ==> AtLineStart(s, p) && |r.value.groups| == 1 && p < r.value.end <= |s|
    ensures r.Some? ==> (|r.value.groups[0]| > 0 && s[r.value.end - 1] == ';'
      && forall c :: c in r.value.groups[0] ==> IsJsPathChar(c))
  {
    if !AtLineStart(s, p) then None
    else
      var w := Skip(s, p, IsJsSpace);
      if !OccursAt(s, "import ", w) then None
      else
        var m := Skip(s, w + 7, IsJsPathChar);
        if m == w + 7 then None
        else
          var c := Skip(s, m, IsJsSpace);
          if c < |s| && s[c] == ';' then Some(Match([s[w + 7..m]], c + 1)) else None
  }

  /**
    `require\(["']([^"']+)["']\)`: the group is the whole run of non-quote
    characters after the opening quote, which must be followed by a quote
    and `)`. The two quotes need not be the same character.
   */
  function RequireAt(s: string, p: nat): (r: Option<Match>)
    requires p <= |s|
    ensures r.Some? ==> |r.value.groups| == 1 && p < r.value.end <= |s|
    ensures r.Some? ==> (OccursAt(s, "require(", p) && p + 8 < |s| && IsQuote(s[p + 8])
      && OccursAt(s, r.value.groups[0], p + 9)
      && r.value.end == p + 9 + |r.value.groups[0]| + 2
      && IsQuote(s[r.value.end - 2]) && s[r.value.end - 1] == ')')
    ensures r.Some? ==> |r.value.groups[0]| > 0 && forall c :: c in r.value.groups[0] ==> !IsQuote(c)
    ensures r.Some? ==> Contains(s, "require")
  {
    if !OccursAt(s, "require(", p) || p + 8 >= |s| || !IsQuote(s[p + 8]) then None
    else
      var e := Skip(s, p + 9, IsNotQuote);
      if e == p + 9 || e + 1 >= |s| || s[e + 1] != ')' then None
      else
        assert s[p..p + 7] == s[p..p + 8][..7] == "require";
        assert OccursAt(s, "require", p);
        Some(Match([s[p + 9..e]], e + 2))
  }

  /** `(?=\s+from)` at `i`: white space, then `from` right after the whole run. */
  predicate SpaceThenFrom(d: Dialect, s: string, i: nat)
    requires i <= |s|
  {
    i < |s| && SpaceClass(d)(s[i]) && OccursAt(s, "from", Skip(s, i, SpaceClass(d)))
  }

  /** The first position at or after `i` where `((?!\s+from).)` cannot take a character. */
  function BodyStop(d: Dialect, s: string, i: nat): (k: nat)
    requires i <= |s|
    ensures i <= k <= |s|
    ensures k == |s| || !DotClass(d)(s[k]) || SpaceThenFrom(d, s, k)
    ensures forall j :: i <= j < k ==> DotClass(d)(s[j]) && !SpaceThenFrom(d, s, j)
    decreases |s| - i
  {
    if i == |s| || !DotClass(d)(s[i]) || SpaceThenFrom(d, s, i) then i
    else BodyStop(d, s, i + 1)
  }

  /**
    `\s+from\s+["']([^"']+)["']` at `k`: the bounds of the module specifier.
    Every quantifier here is maximal, again because a shorter one leaves a
    character the next item refuses.
   */
  function FromClause(d: Dialect, s: string, k: nat): (r: Option<(nat, nat)>)
    requires k <= |s|
    ensures r.Some? ==> k < r.value.0 < r.value.1 < |s|
    ensures r.Some? ==> (IsQuote(s[r.value.0 - 1]) && IsQuote(s[r.value.1])
      && forall j :: r.value.0 <= j < r.value.1 ==> !IsQuote(s[j]))
    ensures r.Some? ==> SpaceThenFrom(d, s, k)
  {
    var a := Skip(s, k, SpaceClass(d));
    if a == k || !OccursAt(s, "from", a) then None
    else
      var c := Skip(s, a + 4, SpaceClass(d));
      if c == a + 4 || c >= |s| || !IsQuote(s[c]) then None
      else
        var e := Skip(s, c + 1, IsNotQuote);
        if e == c + 1 || e >= |s| then None else Some((c + 1, e))
  }

  /** Where the repetition of the ES import regex at `p` stops, and the bounds of the module specifier. */
  function EsImportBounds(d: Dialect, s: string, p: nat): (r: Option<(nat, nat, nat)>)
    requires p <= |s|
    ensures r.Some? ==> OccursAt(s, "import", p) && p < r.value.0 < r.value.1 < r.value.2 < |s|
    ensures r.Some? ==> IsQuote(s[r.value.2]) && forall j :: r.value.1 <= j < r.value.2 ==> !IsQuote(s[j])
  {
    if !OccursAt(s, "import", p) then None
    else
      var w := Skip(s, p + 6, SpaceClass(d));
      if w == p + 6 then None
      else
        var k := BodyStop(d, s, w);
        if k == w then None
        else
          match FromClause(d, s, k)
          case None => None
          case Some((a, e)) => Some((k, a, e))
  }

  /**
    What every match of the ES import regex at `p` looks like: it starts with
    `import`, group 1 is one character and group 2 is a non-empty run of
    non-quote characters that ends right before the closing quote.
   */
  predicate EsImportShaped(s: string, p: nat, m: Match)
  {
    |m.groups| == 2 && p < m.end <= |s| && OccursAt(s, "import", p) && |m.groups[0]| == 1
    && |m.groups[1]| > 0 && IsQuote(s[m.end - 1]) && m.end > |m.groups[1]|
    && OccursAt(s, m.groups[1], m.end - 1 - |m.groups[1]|)
    && forall c :: c in m.groups[1] ==> !IsQuote(c)
  }

  /** The match of the ES import regex at `p` whose repetition stops at `k` and whose specifier is `s[a..e]`. */
  function EsImportMatch(s: string, p: nat, k: nat, a: nat, e: nat): (m: Match)
    requires OccursAt(s, "import", p) && p < k < a < e < |s|
    requires IsQuote(s[e]) && forall j :: a <= j < e ==> !IsQuote(s[j])
    ensures EsImportShaped(s, p, m)
  {
    var spec := s[a..e];
    assert forall c :: c in spec ==> !IsQuote(c) by {
      forall c | c in spec ensures !IsQuote(c) {
        var j :| 0 <= j < |spec| && spec[j] == c;
        assert s[a + j] == c;
      }
    }
    assert e + 1 - 1 - |spec| == a;
    Match([[s[k - 1]], spec], e + 1)
  }

  /**
    `import\s+{?((?!\s+from).)+}?\s+from\s+["']([^"']+)["']`.

    Group 1 is the last character taken by the repeated group, group 2 the
    module specifier. Let `w` be the end of the white space after `import`
    and `k` the first stop of the repeated group at or after `w`. The
    greedy repetition reaches `k`, and from `k` the tail must be
    `\s+from...`: `s[k]` is never `}` (a stop is the end, a line terminator
    or white space), and a shorter repetition ending at `j < k` would need
    white space followed by `from` at `j` or at `j + 1`, that is a stop
    before `k`. Taking `{` or not changes only where the repetition starts,
    not where it stops, and a shorter `\s+` after `import` leaves white
    space whose run ends at `w` again, so neither choice yields another
    match.
   */
  function EsImportAt(d: Dialect, s: string, p: nat): (r: Option<Match>)
    requires p <= |s|
    ensures r.Some? ==> EsImportShaped(s, p, r.value)
  {
    match EsImportBounds(d, s, p)
    case None => None
    case Some((k, a, e)) => Some(EsImportMatch(s, p, k, a, e))
  }

  /**
    `^\s*import\s+(.+)$`. When text follows the white space, `(.+)` takes the
    rest of the line. When the white space runs to the end of the text, the
    engine gives back white space from `\s+`: the group is then the last
    non-terminator character of that run after its first character.
   */
  function PluginPythonImportAt(s: string, p: nat): (r: Option<Match>)
    requires p <= |s|
    ensures r.Some? ==> AtLineStart(s, p) && |r.value.groups| == 1 && p < r.value.end <= |s|
    ensures r.Some? ==> (|r.value.groups[0]| > 0
      && (forall c :: c in r.value.groups[0] ==> !IsJsLineTerminator(c))
      && (r.value.end == |s| || IsJsLineTerminator(s[r.value.end])))
  {
    if !AtLineStart(s, p) then None
    else
      var w0 := Skip(s, p, IsJsSpace);
      if !OccursAt(s, "import", w0) then None
      else
        var u := w0 + 6;
        var w := Skip(s, u, IsJsSpace);
        if w == u then None
        else if w < |s| then
          var e := Skip(s, w, IsNotJsLineTerminator);
          Some(Match([s[w..e]], e))
        else
          match LastKept(s, u + 1, w, IsNotJsLineTerminator)
          case None => None
          case Some(j) => Some(Match([s[j..j + 1]], j + 1))
  }

  /** `^\s*from\s+([\w\.]+)\simport\s(.+)$`: every quantifier is maximal. */
  function PluginPythonFromAt(s: string, p: nat): (r: Option<Match>)
    requires p <= |s|
    ensures r.Some? ==> AtLineStart(s, p) && |r.value.groups| == 2 && p < r.value.end <= |s|
    ensures r.Some? ==> (|r.value.groups[0]| > 0 && (forall c :: c in r.value.groups[0] ==> IsWordOrDot(c))
      && |r.value.groups[1]| > 0)
  {
    if !AtLineStart(s, p) then None
    else
      var w0 := Skip(s, p, IsJsSpace);
      if !OccursAt(s, "from", w0) then None
      else
        var a := Skip(s, w0 + 4, IsJsSpace);
        if a == w0 + 4 then None
        else
          var m := Skip(s, a, IsWordOrDot);
          if m == a || m + 8 > |s| || !IsJsSpace(s[m]) || !OccursAt(s, "import", m + 1) then None
          else if m + 8 == |s| || !IsJsSpace(s[m + 7]) then None
          else
            var e := Skip(s, m + 8, IsNotJsLineTerminator);
            if e == m + 8 then None
            else
              assert forall c :: c in s[a..m] ==> IsWordOrDot(c);
              Some(Match([s[a..m], s[m + 8..e]], e))
  }

  /** `^(\w+)[=<>]?`: the whole leading word run of a line, then one comparison character if present. */
  function PluginRequirementAt(s: string, p: nat): (r: Option<Match>)
    requires p <= |s|
    ensures r.Some? <==> p < |s| && AtLineStart(s, p) && IsWordChar(s[p])
    ensures r.Some? ==> (|r.value.groups| == 1 && p < r.value.end <= |s|
      && r.value.groups[0] == s[p..Skip(s, p, IsWordChar)]
      && Skip(s, p, IsWordChar) <= r.value.end <= Skip(s, p, IsWordChar) + 1)
  {
    if !AtLineStart(s, p) || p >= |s| || !IsWordChar(s[p]) then None
    else
      var m := Skip(s, p, IsWordChar);
      Some(Match([s[p..m]], if m < |s| && IsComparison(s[m]) then m + 1 else m))
  }

  // ---------------------------------------------------------------- corpus

  /**
    `([^;\s]+)\s*(?=;)` at `a`: the whole run of path characters, then white
    space and a `;` that is looked at but not taken.
   */
  function PathBeforeSemicolon(s: string, a: nat): (r: Option<Match>)
    requires a <= |s|
    ensures r.Some? ==> |r.value.groups| == 1 && a < r.value.end < |s| && s[r.value.end] == ';'
    ensures r.Some? ==> (|r.value.groups[0]| > 0 && OccursAt(s, r.value.groups[0], a)
      && forall c :: c in r.value.groups[0] ==> IsPyPathChar(c))
  {
    var m := Skip(s, a, IsPyPathChar);
    if m == a then None
    else
      var c := Skip(s, m, IsPySpace);
      if c < |s| && s[c] == ';' then
        assert forall ch :: ch in s[a..m] ==> IsPyPathChar(ch);
        Some(Match([s[a..m]], c))
      else None
  }

  /** `(?:^|;)\s*kw` at `p`: the position just after the keyword. */
  function KeywordStatement(s: string, p: nat, kw: string): (r: Option<nat>)
    requires p <= |s|
    ensures r.Some? ==> p + |kw| <= r.value <= |s| && OccursAt(s, kw, r.value - |kw|)
    ensures r.Some? ==> Contains(s, kw)
  {
    match LeadIn(s, p, ';')
    case None => None
    case Some(q) =>
      var w := Skip(s, q, IsPySpace);
      if OccursAt(s, kw, w) then Some(w + |kw|) else None
  }

  /** `(?:^|;)\s*import\s+([^;\s]+)\s*(?=;)`. */
  function JavaImportAt(s: string, p: nat): (r: Option<Match>)
    requires p <= |s|
    ensures r.Some? ==> |r.value.groups| == 1 && p < r.value.end <= |s|
    ensures r.Some? ==> (r.value.end < |s| && s[r.value.end] == ';' && |r.value.groups[0]| > 0
      && forall c :: c in r.value.groups[0] ==> IsPyPathChar(c))
    ensures r.Some? ==> Contains(s, "import")
  {
    match KeywordStatement(s, p, "import")
    case None => None
    case Some(u) =>
      var a := Skip(s, u, IsPySpace);
      if a == u then None else PathBeforeSemicolon(s, a)
  }

  /** `static\s+` at `a`. */
  predicate StaticAt(s: string, a: nat) {
    OccursAt(s, "static", a) && a + 6 < |s| && IsPySpace(s[a + 6])
  }

  /**
    `(?:^|;)\s*using\s+(?!static\s+)([^;\s]+)\s*(?=;)`. A shorter `\s+`
    passes the lookahead but leaves white space where the group must start,
    so a `using static` statement never matches here.
   */
  function CsUsingAt(s: string, p: nat): (r: Option<Match>)
    requires p <= |s|
    ensures r.Some? ==> |r.value.groups| == 1 && p < r.value.end <= |s|
    ensures r.Some? ==> (r.value.end < |s| && s[r.value.end] == ';' && |r.value.groups[0]| > 0
      && forall c :: c in r.value.groups[0] ==> IsPyPathChar(c))
    ensures forall u :: KeywordStatement(s, p, "using") == Some(u) && StaticAt(s, Skip(s, u, IsPySpace)) ==> r.None?
    ensures r.Some? ==> Contains(s, "using")
  {
    match KeywordStatement(s, p, "using")
    case None => None
    case Some(u) =>
      var a := Skip(s, u, IsPySpace);
      if a == u || StaticAt(s, a) then None else PathBeforeSemicolon(s, a)
  }

  /** `(?:^|;)\s*using\s+static\s+([^;\s]+)\s*(?=;)`. */
  function CsUsingStaticAt(s: string, p: nat): (r: Option<Match>)
    requires p <= |s|
    ensures r.Some? ==> |r.value.groups| == 1 && p < r.value.end <= |s|
    ensures r.Some? ==> (r.value.end < |s| && s[r.value.end] == ';' && |r.value.groups[0]| > 0
      && forall c :: c in r.value.groups[0] ==> IsPyPathChar(c))
    ensures r.Some? ==> exists u :: KeywordStatement(s, p, "using") == Some(u) && StaticAt(s, Skip(s, u, IsPySpace))
    ensures r.Some? ==> Contains(s, "using")
  {
    match KeywordStatement(s, p, "using")
    case None => None
    case Some(u) =>
      var a := Skip(s, u, IsPySpace);
      if a == u || !OccursAt(s, "static", a) then None
      else
        var b := Skip(s, a + 6, IsPySpace);
        if b == a + 6 then None else PathBeforeSemicolon(s, b)
  }

  /**
    `\s+([^;]+)(?=;)` at `u`: everything up to the next `;`, which must exist.
    When the white space reaches the `;` itself, `\s+` gives back one
    character and the group is that white space character. With `guarded`,
    the lookahead `(?!const|function)` after `\s+` first refuses a maximal
    run that is followed by one of those keywords, and the group then starts
    one character earlier, with the last white space character.
   */
  function UseList(s: string, u: nat, guarded: bool): (r: Option<Match>)
    requires u <= |s|
    ensures r.Some? ==> |r.value.groups| == 1 && u < r.value.end < |s| && s[r.value.end] == ';'
    ensures r.Some? ==> (|r.value.groups[0]| > 0 && OccursAt(s, r.value.groups[0], r.value.end - |r.value.groups[0]|)
      && r.value.end - |r.value.groups[0]| > u && ';' !in r.value.groups[0])
  {
    var v := Skip(s, u, IsPySpace);
    if v == u then None
    else
      var c := Skip(s, v, IsNotSemicolon);
      if c == |s| then None
      else
        var refused := guarded && (OccursAt(s, "const", v) || OccursAt(s, "function", v));
        var j := if v < c && !refused then v else v - 1;
        if j <= u then None
        else
          assert forall ch :: ch in s[j..c] ==> IsNotSemicolon(ch);
          Some(Match([s[j..c]], c))
  }

  /** `(?:^|;)\s*use\s+kw\s+([^;]+)(?=;)` for `kw` one of `function`, `const`. */
  function PhpUseKeywordAt(s: string, p: nat, kw: string): (r: Option<Match>)
    requires p <= |s|
    ensures r.Some? ==> |r.value.groups| == 1 && p < r.value.end < |s| && s[r.value.end] == ';'
    ensures r.Some? ==> |r.value.groups[0]| > 0 && ';' !in r.value.groups[0]
    ensures r.Some? ==> Contains(s, "use")
  {
    match KeywordStatement(s, p, "use")
    case None => None
    case Some(u) =>
      var a := Skip(s, u, IsPySpace);
      if a == u || !OccursAt(s, kw, a) then None else UseList(s, a + |kw|, false)
  }

  /** `(?:^|;)\s*use\s+(?!const|function)([^;]+)(?=;)`. */
  function PhpUseAt(s: string, p: nat): (r: Option<Match>)
    requires p <= |s|
    ensures r.Some? ==> |r.value.groups| == 1 && p < r.value.end < |s| && s[r.value.end] == ';'
    ensures r.Some? ==> |r.value.groups[0]| > 0 && ';' !in r.value.groups[0]
    ensures r.Some? ==> Contains(s, "use")
  {
    match KeywordStatement(s, p, "use")
    case None => None
    case Some(u) => UseList(s, u, true)
  }

  /**
    Where `\s*(?:as\s+[^\s,;]+)?` ends when tried at `a`, that is at the end
    of the white space: the alias is taken when it is complete, and skipped
    otherwise (nothing after it can fail).
   */
  function AliasEnd(s: string, a: nat): (e: nat)
    requires a <= |s|
    ensures a <= e <= |s|
  {
    var a' := Skip(s, a, IsPySpace);
    if !OccursAt(s, "as", a') then a'
    else
      var b := Skip(s, a' + 2, IsPySpace);
      if b == a' + 2 then a'
      else
        var x := Skip(s, b, IsPhpNameChar);
        if x == b then a' else x
  }

  /** `([^;\s,]+)\s*(?:as\s+[^\s,;]+)?`: the whole run of name characters, then an optional alias. */
  function PhpSimpleListAt(s: string, p: nat): (r: Option<Match>)
    requires p <= |s|
    ensures r.Some? <==> p < |s| && IsPhpNameChar(s[p])
    ensures r.Some? ==> (|r.value.groups| == 1 && p < r.value.end <= |s|
      && r.value.groups[0] == s[p..Skip(s, p, IsPhpNameChar)])
  {
    if p >= |s| || !IsPhpNameChar(s[p]) then None
    else
      var m := Skip(s, p, IsPhpNameChar);
      Some(Match([s[p..m]], AliasEnd(s, m)))
  }

  /**
    `^([^{\s]+)\s*{([^}]+)}`: the use prefix and the text between the braces.
    `^` holds only at the start of the text.
   */
  function PhpGroupSplitAt(s: string, p: nat): (r: Option<Match>)
    requires p <= |s|
    ensures r.Some? ==> p == 0 && |r.value.groups| == 2 && p < r.value.end <= |s|
    ensures r.Some? ==> (|r.value.groups[0]| > 0 && |r.value.groups[1]| > 0
      && s[r.value.end - 1] == '}' && '}' !in r.value.groups[1]
      && forall c :: c in r.value.groups[0] ==> IsPhpPrefixChar(c))
  {
    if p != 0 then None
    else
      var m := Skip(s, 0, IsPhpPrefixChar);
      if m == 0 then None
      else
        var a := Skip(s, m, IsPySpace);
        if a >= |s| || s[a] != '{' then None
        else
          var e := Skip(s, a + 1, IsNotCloseBrace);
          if e == a + 1 || e >= |s| then None
          else
            assert forall c :: c in s[0..m] ==> IsPhpPrefixChar(c);
            assert forall c :: c in s[a + 1..e] ==> IsNotCloseBrace(c);
            Some(Match([s[0..m], s[a + 1..e]], e + 1))
  }

  /**
    `s[n..c]` is one string of `\s*(?:as\s+[^\s,;]+)?\s*`, where `c` is the
    next comma or the end: the test behind `(?=,|$)`. Every quantifier in it
    is maximal, since a shorter one leaves a character none of the later
    items takes.
   */
  predicate AliasTail(s: string, n: nat, c: nat)
    requires n <= c <= |s|
  {
    var a := Skip(s, n, IsPySpace);
    a == c
    || (OccursAt(s, "as", a) && a + 2 <= c &&
        var b := Skip(s, a + 2, IsPySpace);
        b > a + 2 && b <= c &&
        var x := Skip(s, b, IsPhpNameChar);
        x > b && x <= c && Skip(s, x, IsPySpace) == c)
  }

  /**
    The largest `n` in `(i, hi]` that passes `ok`: a greedy group gives back
    characters until the rest of the pattern fits.
   */
  function Longest(i: nat, hi: nat, ok: nat -> bool): (r: Option<nat>)
    requires i <= hi
    ensures r.Some? ==> i < r.value <= hi && ok(r.value)
    ensures r.Some? ==> forall n :: r.value < n <= hi ==> !ok(n)
    ensures r.None? ==> forall n :: i < n <= hi ==> !ok(n)
    decreases hi
  {
    if hi <= i then None
    else if ok(hi) then Some(hi)
    else Longest(i, hi - 1, ok)
  }

  /**
    One item of a group use with type text `s[t..i]` and the name starting
    at `i`, followed by the optional alias up to `c`, the next comma or end.
   */
  function ComplexItem(s: string, t: nat, i: nat, c: nat): (r: Option<Match>)
    requires t <= i <= c <= |s|
    requires forall j :: t <= j < c ==> s[j] != ','
    ensures r.Some? ==> |r.value.groups| == 2 && r.value.end == c && i < c
    ensures r.Some? ==> (r.value.groups[0] == s[t..i] && |r.value.groups[1]| > 0
      && OccursAt(s, r.value.groups[1], i)
      && forall ch :: ch in r.value.groups[1] ==> IsPhpNameChar(ch))
  {
    var m := Skip(s, i, IsPhpNameChar);
    if m == i || m > c then None
    else
      // `([^;\s,]+)` gives back characters until the alias tail fits
      match Longest(i, m, (n: nat) => n <= c && AliasTail(s, n, c))
      case None => None
      case Some(n) =>
        assert forall ch :: ch in s[i..n] ==> IsPhpNameChar(ch);
        Some(Match([s[t..i], s[i..n]], c))
  }

  /** `t` is `kw` followed by white space, at least one character of it. */
  predicate KeywordThenSpaces(t: string, kw: string) {
    |t| > |kw| && t[..|kw|] == kw && forall j :: |kw| <= j < |t| ==> IsPySpace(t[j])
  }

  /** The type alternative `kw\s+` at `w`, then the item. */
  function TypedItem(s: string, w: nat, c: nat, kw: string): (r: Option<Match>)
    requires w <= c <= |s|
    requires forall j :: w <= j < c ==> s[j] != ','
    ensures r.Some? ==> |r.value.groups| == 2 && w < r.value.end == c
    ensures r.Some? ==> (|r.value.groups[1]| > 0 && OccursAt(s, kw, w) && KeywordThenSpaces(r.value.groups[0], kw))
  {
    if !OccursAt(s, kw, w) then None
    else
      var i := Skip(s, w + |kw|, IsPySpace);
      if i == w + |kw| || i > c then None
      else
        assert s[w..i][..|kw|] == s[w..w + |kw|];
        assert forall j :: |kw| <= j < i - w ==> s[w..i][j] == s[w + j];
        ComplexItem(s, w, i, c)
  }

  /**
    `(?:^|,)\s*(const\s+|function\s+|)([^;\s,]+)\s*(?:as\s+[^\s,;]+)?\s*(?=,|$)`.
    The three type alternatives are tried in order. A match ends at the
    next comma (or the end), which the lookahead leaves for the next match.
    `$` also holds before a final newline, but white space reaching it can
    always be taken up to the end, so this adds no match.
   */
  function PhpComplexListAt(s: string, p: nat): (r: Option<Match>)
    requires p <= |s|
    ensures r.Some? ==> |r.value.groups| == 2 && p < r.value.end <= |s|
    ensures r.Some? ==> ((r.value.end == |s| || s[r.value.end] == ',') && |r.value.groups[1]| > 0
      && forall ch :: ch in r.value.groups[1] ==> IsPhpNameChar(ch))
    ensures r.Some? ==> (r.value.groups[0] == "" || KeywordThenSpaces(r.value.groups[0], "const")
      || KeywordThenSpaces(r.value.groups[0], "function"))
  {
    match LeadIn(s, p, ',')
    case None => None
    case Some(q) =>
      var w := Skip(s, q, IsPySpace);
      var c := Skip(s, w, IsNotComma);
      match TypedItem(s, w, c, "const")
      case Some(r) => Some(r)
      case None =>
        match TypedItem(s, w, c, "function")
        case Some(r) => Some(r)
        case None => ComplexItem(s, w, w, c)
  }

  /** `kw\s+["']([^"']+)["']`. */
  function RubyRequireAt(s: string, p: nat, kw: string): (r: Option<Match>)
    requires p <= |s|
    ensures r.Some? ==> |r.value.groups| == 1 && p < r.value.end <= |s|
    ensures r.Some? ==> (|r.value.groups[0]| > 0 && OccursAt(s, kw, p)
      && forall c :: c in r.value.groups[0] ==> !IsQuote(c))
    ensures r.Some? ==> Contains(s, kw)
  {
    if !OccursAt(s, kw, p) then None
    else
      var a := Skip(s, p + |kw|, IsPySpace);
      if a == p + |kw| || a >= |s| || !IsQuote(s[a]) then None
      else
        var e := Skip(s, a + 1, IsNotQuote);
        if e == a + 1 || e >= |s| then None
        else
          assert forall c :: c in s[a + 1..e] ==> IsNotQuote(c);
          Some(Match([s[a + 1..e]], e + 1))
  }

  // ---------------------------------------------------------------- scanning

  /**
    A regex: its recogniser (the regex tried at exactly one position) and
    its number of capture groups.
   */
  datatype Regex = Regex(at: (string, nat) --> Option<Match>, groups: nat)

  /** The recogniser is defined at every position of every text, and its matches are non-empty, stay inside the text and have the stated number of groups. */
  ghost predicate WellFormed(re: Regex) {
    (forall s: string, p: nat :: p <= |s| ==> re.at.requires(s, p))
    && (forall s: string, p: nat :: p <= |s| && re.at(s, p).Some? ==>
          p < re.at(s, p).value.end <= |s| && |re.at(s, p).value.groups| == re.groups)
  }

  /** A regex whose recogniser is well formed. */
  type WfRegex = re: Regex | WellFormed(re) witness Regex((s: string, p: nat) => None, 0)

  /** The regex tried at exactly position `p`. */
  function MatchAt(re: WfRegex, s: string, p: nat): (r: Option<Match>)
    requires p <= |s|
    ensures r.Some? ==> p < r.value.end <= |s| && |r.value.groups| == re.groups
  {
    re.at(s, p)
  }

  /** `regex.exec(s)` with `lastIndex == from`, and Python's `search` from `from`: the leftmost match. */
  function Exec(re: WfRegex, s: string, from: nat): (r: Option<Found>)
    requires from <= |s|
    ensures r.Some? ==> (from <= r.value.index < r.value.m.end <= |s|
      && MatchAt(re, s, r.value.index) == Some(r.value.m)
      && |r.value.m.groups| == re.groups)
    ensures r.Some? ==> forall p :: from <= p < r.value.index ==> MatchAt(re, s, p).None?
    ensures r.None? ==> forall p :: from <= p <= |s| ==> MatchAt(re, s, p).None?
    decreases |s| - from
  {
    if from == |s| then None
    else
      match MatchAt(re, s, from)
      case Some(m) => Some(Found(from, m))
      case None => Exec(re, s, from + 1)
  }

  /** Every match, left to right, each search starting where the previous match ended. */
  function FindAll(re: WfRegex, s: string, from: nat): (ms: seq<Match>)
    requires from <= |s|
    ensures forall i :: 0 <= i < |ms| ==> |ms[i].groups| == re.groups
    ensures Exec(re, s, from).None? <==> |ms| == 0
    decreases |s| - from
  {
    match Exec(re, s, from)
    case None => []
    case Some(f) => [f.m] + FindAll(re, s, f.m.end)
  }

  /** A property that every match at every position has is shared by every match `findall` returns. */
  lemma {:induction false} FindAllKeeps(re: WfRegex, s: string, from: nat, P: Match -> bool)
    requires from <= |s|
    requires forall p :: from <= p <= |s| && MatchAt(re, s, p).Some? ==> P(MatchAt(re, s, p).value)
    ensures forall i :: 0 <= i < |FindAll(re, s, from)| ==> P(FindAll(re, s, from)[i])
    decreases |s| - from
  {
    match Exec(re, s, from)
    case None =>
    case Some(f) =>
      FindAllKeeps(re, s, f.m.end, P);
      assert FindAll(re, s, from) == [f.m] + FindAll(re, s, f.m.end);
  }

  /** Group `g` of every match: Python's `findall` for a one-group regex, and `get_elems_idx` over tuples. */
  function Column(ms: seq<Match>, g: nat): (r: seq<string>)
    requires forall i :: 0 <= i < |ms| ==> g < |ms[i].groups|
    ensures |r| == |ms| && forall i :: 0 <= i < |ms| ==> r[i] == ms[i].groups[g]
    decreases |ms|
  {
    if |ms| == 0 then [] else [ms[0].groups[g]] + Column(ms[1..], g)
  }

  /** One step of `findall`: the column starts with the group of the next match. */
  lemma ColumnExec(re: WfRegex, s: string, from: nat, g: nat)
    requires from <= |s| && Exec(re, s, from).Some? && g < re.groups
    ensures Column(FindAll(re, s, from), g)
      == [Exec(re, s, from).value.m.groups[g]] + Column(FindAll(re, s, Exec(re, s, from).value.m.end), g)
  {
    var m := Exec(re, s, from).value.m;
    var rest := FindAll(re, s, m.end);
    assert FindAll(re, s, from) == [m] + rest;
    assert ([m] + rest)[1..] == rest;
  }

  /** `re.findall` of a regex with one group: the group of every match. */
  function FindAllStrings(re: WfRegex, s: string): (r: seq<string>)
    requires re.groups == 1
  {
    Column(FindAll(re, s, 0), 0)
  }

  /** `re.findall` of a regex with several groups: the tuple of groups of every match. */
  function FindAllTuples(re: WfRegex, s: string): (r: seq<seq<string>>)
    ensures forall i :: 0 <= i < |r| ==> |r[i]| == re.groups
  {
    var ms := FindAll(re, s, 0);
    seq(|ms|, i requires 0 <= i < |ms| => ms[i].groups)
  }

  // ---------------------------------------------------------------- the regexes

  /** `/^\s*import ([^;\s]+)\s*;/gm` (plugin, Java). */
  const PluginJavaImport: WfRegex := Regex(PluginJavaImportAt, 1)
  /** `require\(["']([^"']+)["']\)` (plugin and corpus, JavaScript). */
  const Require: WfRegex := Regex(RequireAt, 1)
  /** The ES import regex as the plugin runs it. */
  function JsEsImportAt(s: string, p: nat): (r: Option<Match>)
    requires p <= |s|
    ensures r.Some? ==> p < r.value.end <= |s| && |r.value.groups| == 2
  {
    EsImportAt(Js, s, p)
  }
  const JsEsImport: WfRegex := Regex(JsEsImportAt, 2)
  /** The ES import regex as the corpus script runs it. */
  function PyEsImportAt(s: string, p: nat): (r: Option<Match>)
    requires p <= |s|
    ensures r.Some? ==> p < r.value.end <= |s| && |r.value.groups| == 2
  {
    EsImportAt(Py, s, p)
  }
  const PyEsImport: WfRegex := Regex(PyEsImportAt, 2)
  /** `/^\s*import\s+(.+)$/gm` (plugin, Python). */
  const PluginPythonImport: WfRegex := Regex(PluginPythonImportAt, 1)
  /** `/^\s*from\s+([\w\.]+)\simport\s(.+)$/gm` (plugin, Python). */
  const PluginPythonFrom: WfRegex := Regex(PluginPythonFromAt, 2)
  /** `/^(\w+)[=<>]?/gm` (plugin, requirements.txt). */
  const PluginRequirement: WfRegex := Regex(PluginRequirementAt, 1)
  const JavaImport: WfRegex := Regex(JavaImportAt, 1)
  const CsUsing: WfRegex := Regex(CsUsingAt, 1)
  const CsUsingStatic: WfRegex := Regex(CsUsingStaticAt, 1)
  function PhpUseFunctionAt(s: string, p: nat): (r: Option<Match>)
    requires p <= |s|
    ensures r.Some? ==> p < r.value.end <= |s| && |r.value.groups| == 1
  {
    PhpUseKeywordAt(s, p, "function")
  }
  const PhpUseFunction: WfRegex := Regex(PhpUseFunctionAt, 1)
  function PhpUseConstAt(s: string, p: nat): (r: Option<Match>)
    requires p <= |s|
    ensures r.Some? ==> p < r.value.end <= |s| && |r.value.groups| == 1
  {
    PhpUseKeywordAt(s, p, "const")
  }
  const PhpUseConst: WfRegex := Regex(PhpUseConstAt, 1)
  const PhpUse: WfRegex := Regex(PhpUseAt, 1)
  const PhpSimpleList: WfRegex := Regex(PhpSimpleListAt, 1)
  const PhpComplexList: WfRegex := Regex(PhpComplexListAt, 2)
  const PhpGroupSplit: WfRegex := Regex(PhpGroupSplitAt, 2)
  function RubyRequirePlainAt(s: string, p: nat): (r: Option<Match>)
    requires p <= |s|
    ensures r.Some? ==> p < r.value.end <= |s| && |r.value.groups| == 1
  {
    RubyRequireAt(s, p, "require")
  }
  const RubyRequire: WfRegex := Regex(RubyRequirePlainAt, 1)
  function RubyRequireRelativeAt(s: string, p: nat): (r: Option<Match>)
    requires p <= |s|
    ensures r.Some? ==> p < r.value.end <= |s| && |r.value.groups| == 1
  {
    RubyRequireAt(s, p, "require_relative")
  }
  const RubyRequireRelative: WfRegex := Regex(RubyRequireRelativeAt, 1)
}
