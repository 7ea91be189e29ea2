/**
  The dependency-context extractor of the editor plugin: it classifies the
  active document by file extension, collects the document's imports or
  declared dependencies with one of six parsers, and hands them on (for
  Java through a package-to-module mapping service). The module-level
  variables `editor`, `language` and `suggestCache` are the fields of an
  `Extension` object.
 */
module Plugin {
  import opened Wrappers
  import opened Text
  import opened Ordered
  import opened Patterns

  // ---------------------------------------------------------------- file kinds

  const SupportedFileTypes: seq<string> := [".java", ".js", ".py", ".xml", ".json", ".txt"]

  predicate EndsWith(s: string, suffix: string) {
    |suffix| <= |s| && s[|s| - |suffix|..] == suffix
  }

  /** Lowercasing keeps every dot where it is and makes no new one. */
  lemma LowerDots(s: string)
    ensures forall j :: 0 <= j < |s| ==> (Lower(s)[j] == '.' <==> s[j] == '.')
  {
  }

  /**
    `getFileExtension`: the lowercased name from its last `.` on, or the
    whole lowercased name when it has no `.` (`substring(-1)` is `substring(0)`).
   */
  function GetFileExtension(fileName: string): (ext: string)
    ensures |ext| <= |fileName| && EndsWith(Lower(fileName), ext)
    ensures '.' in fileName ==> |ext| > 0 && ext[0] == '.' && '.' !in ext[1..]
    ensures '.' !in fileName ==> ext == Lower(fileName)
  {
    var lower := Lower(fileName);
    LowerDots(fileName);
    match LastIndexOf(fileName, '.')
    case None => lower
    case Some(i) =>
      assert forall j :: i + 1 <= j < |fileName| ==> fileName[j] != '.' by {
        forall j | i + 1 <= j < |fileName| ensures fileName[j] != '.' {
          assert fileName[j] in fileName[i + 1..];
        }
      }
      lower[i..]
  }

  predicate IsSupportedFileExtension(ext: string) {
    ext in SupportedFileTypes
  }

  /** A `.` followed by no other `.`. */
  predicate IsDottedSuffix(t: string) {
    |t| > 0 && t[0] == '.' && forall j :: 1 <= j < |t| ==> t[j] != '.'
  }

  /** A name ending with a dotted suffix has that suffix as its extension. */
  lemma ExtensionOfDottedSuffix(fileName: string, t: string)
    requires IsDottedSuffix(t) && EndsWith(Lower(fileName), t)
    ensures GetFileExtension(fileName) == t
  {
    var ext := GetFileExtension(fileName);
    var lower := Lower(fileName);
    LowerDots(fileName);
    var k := |fileName| - |t|;
    assert lower[k] == t[0];
    assert fileName[k] == '.';
    var i := |fileName| - |ext|;
    assert lower[i] == ext[0] == '.';

  }

  lemma SupportedAreDottedSuffixes()
    ensures forall t :: t in SupportedFileTypes ==> IsDottedSuffix(t)
  {
    assert IsDottedSuffix(".java") && IsDottedSuffix(".js") && IsDottedSuffix(".py");
    assert IsDottedSuffix(".xml") && IsDottedSuffix(".json") && IsDottedSuffix(".txt");
  }

  /** A file is supported exactly when its lowercased name ends with one of the six extensions. */
  lemma SupportedFileName(fileName: string)
    ensures IsSupportedFileExtension(GetFileExtension(fileName)) <==>
      exists t :: t in SupportedFileTypes && EndsWith(Lower(fileName), t)
  {
    var ext := GetFileExtension(fileName);
    if t :| t in SupportedFileTypes && EndsWith(Lower(fileName), t) {
      SupportedAreDottedSuffixes();
      ExtensionOfDottedSuffix(fileName, t);
    }
  }

  // ---------------------------------------------------------------- Java

  /**
    `path.substring(0, path.lastIndexOf('.'))`: the package of a class path.
    Without a dot this is `substring(0, -1)`, the empty string.
   */
  function PackageOf(path: string): (pkg: string)
    ensures '.' !in path ==> pkg == ""
    ensures '.' in path ==> (|pkg| < |path| && pkg == path[..|pkg|] && path[|pkg|] == '.'
      && '.' !in path[|pkg| + 1..])
  {
    match LastIndexOf(path, '.')
    case None => ""
    case Some(i) => path[..i]
  }

  /** A package and the class name after its last dot give the path back. */
  lemma PackageOfSplit(path: string)
    requires '.' in path
    ensures path == PackageOf(path) + "." + path[|PackageOf(path)| + 1..]
  {
    var pkg := PackageOf(path);
    assert path == path[..|pkg|] + [path[|pkg|]] + path[|pkg| + 1..];
  }

  function Packages(paths: seq<string>): (pkgs: seq<string>)
    ensures |pkgs| == |paths| && forall i :: 0 <= i < |paths| ==> pkgs[i] == PackageOf(paths[i])
    decreases |paths|
  {
    if |paths| == 0 then [] else [PackageOf(paths[0])] + Packages(paths[1..])
  }

  /** What `parseJava` returns: the packages of the imported paths, first occurrences only. */
  function JavaPackages(str: string): seq<string> {
    Distinct(Packages(FindAllStrings(PluginJavaImport, str)))
  }

  /**
    The Java result holds no duplicates; an entry is present exactly when
    some imported path has it as its package, in the order of first import;
    and it is empty exactly when there is no import statement.
   */
  lemma JavaPackagesProperties(str: string)
    ensures NoDuplicates(JavaPackages(str))
    ensures forall x :: x in JavaPackages(str) <==>
      exists path :: path in FindAllStrings(PluginJavaImport, str) && x == PackageOf(path)
    ensures forall x :: x in JavaPackages(str) <==> x in Packages(FindAllStrings(PluginJavaImport, str))
    ensures forall i, j :: 0 <= i < j < |JavaPackages(str)| ==>
      FirstIndex(Packages(FindAllStrings(PluginJavaImport, str)), JavaPackages(str)[i]) <
      FirstIndex(Packages(FindAllStrings(PluginJavaImport, str)), JavaPackages(str)[j])
    ensures |JavaPackages(str)| == 0 <==> Exec(PluginJavaImport, str, 0).None?
  {
    var paths := FindAllStrings(PluginJavaImport, str);
    var pkgs := Packages(paths);
    DistinctProperties(pkgs);
    PackagesMembers(paths);
    if |pkgs| > 0 {
      assert pkgs[0] in Distinct(pkgs);
    }
  }

  /** The packages of some paths are exactly the package of each path. */
  lemma PackagesMembers(paths: seq<string>)
    ensures forall x :: x in Packages(paths) <==> exists path :: path in paths && x == PackageOf(path)
  {
    var pkgs := Packages(paths);
    forall x ensures x in pkgs <==> exists path :: path in paths && x == PackageOf(path) {
      if x in pkgs {
        var i :| 0 <= i < |pkgs| && pkgs[i] == x;
        assert paths[i] in paths;
      }
      if path :| path in paths && x == PackageOf(path) {
        var i :| 0 <= i < |paths| && paths[i] == path;
        assert pkgs[i] == x;
      }
    }
  }

  // ---------------------------------------------------------------- JavaScript

  const AcceptedFirstCharacter: string :=
    "abcdefghijklmnopqrstuvwxyzABCDEFGHIJKLMNOPQRSTUVWXYZ0123456789@"

  /** `acceptedFirstCharacter.includes(match[0])`; `match[0]` of an empty string is `undefined`, which is not included. */
  predicate Accepted(x: string) {
    |x| > 0 && x[0] in AcceptedFirstCharacter
  }

  /** The accepted strings of `xs`, in order. */
  function AcceptedOnly(xs: seq<string>): (r: seq<string>)
    decreases |xs|
  {
    if |xs| == 0 then []
    else if Accepted(xs[0]) then [xs[0]] + AcceptedOnly(xs[1..])
    else AcceptedOnly(xs[1..])
  }

  /** The accepted strings are the accepted members. */
  lemma {:induction false} AcceptedOnlyMembers(xs: seq<string>)
    ensures forall x :: x in AcceptedOnly(xs) <==> x in xs && Accepted(x)
    decreases |xs|
  {
    if |xs| > 0 {
      AcceptedOnlyMembers(xs[1..]);
      assert xs == [xs[0]] + xs[1..];
    }
  }

  /** Filtering a concatenation filters each part. */
  lemma {:induction false} AcceptedOnlyAppend(a: seq<string>, b: seq<string>)
    ensures AcceptedOnly(a + b) == AcceptedOnly(a) + AcceptedOnly(b)
    decreases |a|
  {
    if |a| == 0 {
      assert a + b == b;
    } else {
      assert (a + b)[1..] == a[1..] + b;
      AcceptedOnlyAppend(a[1..], b);
    }
  }

  /** Every capture group of every match, in order: what `m.forEach` visits after group 0. */
  function Groups(ms: seq<Match>): (r: seq<string>)
    decreases |ms|
  {
    if |ms| == 0 then [] else ms[0].groups + Groups(ms[1..])
  }

  /** Each group of each match is among the groups, and nothing else is. */
  lemma GroupsMembers(ms: seq<Match>)
    ensures forall i, g :: 0 <= i < |ms| && 0 <= g < |ms[i].groups| ==> ms[i].groups[g] in Groups(ms)
    ensures forall x :: x in Groups(ms) ==> exists i :: 0 <= i < |ms| && x in ms[i].groups
  {
    GroupsContain(ms);
    GroupsFrom(ms);
  }

  lemma {:induction false} GroupsContain(ms: seq<Match>)
    ensures forall i, g :: 0 <= i < |ms| && 0 <= g < |ms[i].groups| ==> ms[i].groups[g] in Groups(ms)
    decreases |ms|
  {
    if |ms| > 0 {
      assert Groups(ms) == ms[0].groups + Groups(ms[1..]);
      GroupsContain(ms[1..]);
      forall i, g | 0 < i < |ms| && 0 <= g < |ms[i].groups| ensures ms[i].groups[g] in Groups(ms) {
        assert ms[1..][i - 1] == ms[i];
      }
    }
  }

  lemma {:induction false} GroupsFrom(ms: seq<Match>)
    ensures forall x :: x in Groups(ms) ==> exists i :: 0 <= i < |ms| && x in ms[i].groups
    decreases |ms|
  {
    if |ms| > 0 {
      assert Groups(ms) == ms[0].groups + Groups(ms[1..]);
      GroupsFrom(ms[1..]);
      forall x | x in Groups(ms) ensures exists i :: 0 <= i < |ms| && x in ms[i].groups {
        if x !in ms[0].groups {
          assert x in Groups(ms[1..]);
          var i :| 0 <= i < |ms[1..]| && x in ms[1..][i].groups;
          assert ms[i + 1] == ms[1..][i];
        }
      }
    }
  }

  /** The accepted captures of one of the two regexes, over the whole text. */
  function JsCandidates(re: WfRegex, str: string): seq<string> {
    AcceptedOnly(Groups(FindAll(re, str, 0)))
  }

  const JsRegexes: seq<WfRegex> := [Require, JsEsImport]

  /** What `parseJavaScript` returns. */
  function JsModules(str: string): seq<string> {
    Distinct(JsCandidates(Require, str) + JsCandidates(JsEsImport, str))
  }

  /**
    Every JavaScript entry starts with a letter, a digit or `@` (so relative
    specifiers are dropped), none is repeated, and every entry found by the
    `require` regex comes before every entry found only by the `import`
    regex.
   */
  lemma JsModulesProperties(str: string)
    ensures forall x :: x in JsModules(str) ==> Accepted(x)
    ensures NoDuplicates(JsModules(str))
    ensures Distinct(JsCandidates(Require, str)) <= JsModules(str)
    ensures forall k :: |Distinct(JsCandidates(Require, str))| <= k < |JsModules(str)| ==>
      JsModules(str)[k] in JsCandidates(JsEsImport, str) && JsModules(str)[k] !in JsCandidates(Require, str)
  {
    var r := JsCandidates(Require, str);
    var e := JsCandidates(JsEsImport, str);
    AcceptedOnlyMembers(Groups(FindAll(Require, str, 0)));
    AcceptedOnlyMembers(Groups(FindAll(JsEsImport, str, 0)));
    DistinctProperties(r + e);
    DistinctConcat(r, e);
  }

  /**
    The one-character group 1 of an ES import (the last character of the
    imported bindings) is itself an entry whenever it is a letter, a digit
    or `@`, like the module specifier in group 2.
   */
  lemma EsImportGroupsAreEntries(str: string, m: Match, g: nat)
    requires m in FindAll(JsEsImport, str, 0) && g < |m.groups| && Accepted(m.groups[g])
    ensures m.groups[g] in JsModules(str)
  {
    var ms := FindAll(JsEsImport, str, 0);
    var i :| 0 <= i < |ms| && ms[i] == m;
    GroupsMembers(ms);
    AcceptedOnlyMembers(Groups(ms));
    var r := JsCandidates(Require, str);
    var e := JsCandidates(JsEsImport, str);
    DistinctProperties(r + e);
    assert m.groups[g] in e;
    assert m.groups[g] in r + e;
  }

  // ---------------------------------------------------------------- Python

  /** `s.split('.')[0]`: the text before the first dot. */
  function FirstSegment(s: string): (r: string)
    ensures r <= s && '.' !in r
    ensures r == s || s[|r|] == '.'
  {
    match IndexOf(s, '.')
    case None => s
    case Some(i) => s[..i]
  }

  /** `imp.trim().split('.')[0]` for every clause. */
  function ClauseModules(clauses: seq<string>): (r: seq<string>)
    ensures |r| == |clauses| && forall i :: 0 <= i < |clauses| ==> r[i] == FirstSegment(TrimJs(clauses[i]))
    decreases |clauses|
  {
    if |clauses| == 0 then [] else [FirstSegment(TrimJs(clauses[0]))] + ClauseModules(clauses[1..])
  }

  /** The comma-separated clauses before the first `" as "`. */
  function Clauses(list: string): (r: seq<string>)
    ensures |r| >= 1
  {
    SplitOn(BeforeFirst(list, " as "), ',')
  }

  /** The entries of the `import` matches, match by match. */
  function ImportEntries(ms: seq<Match>): seq<string>
    requires forall i :: 0 <= i < |ms| ==> |ms[i].groups| >= 1
    decreases |ms|
  {
    if |ms| == 0 then [] else ClauseModules(Clauses(ms[0].groups[0])) + ImportEntries(ms[1..])
  }

  /** The entries of the `from` matches: the first segment of the package, once per match. */
  function FromEntries(ms: seq<Match>): (r: seq<string>)
    requires forall i :: 0 <= i < |ms| ==> |ms[i].groups| >= 1
    ensures |r| == |ms| && forall i :: 0 <= i < |ms| ==> r[i] == FirstSegment(ms[i].groups[0])
    decreases |ms|
  {
    if |ms| == 0 then [] else [FirstSegment(ms[0].groups[0])] + FromEntries(ms[1..])
  }

  /** What `parsePython` returns. */
  function PyModules(str: string): seq<string> {
    Distinct(ImportEntries(FindAll(PluginPythonImport, str, 0)) + FromEntries(FindAll(PluginPythonFrom, str, 0)))
  }

  /**
    The Python result has no duplicates and no entry contains a dot; the
    modules of `import` lines come first, and every later entry is a `from`
    entry (the first segment of the package of a `from` line) that no
    `import` line gave.
   */
  lemma PyModulesProperties(str: string)
    ensures NoDuplicates(PyModules(str))
    ensures forall x :: x in PyModules(str) ==> '.' !in x
    ensures Distinct(ImportEntries(FindAll(PluginPythonImport, str, 0))) <= PyModules(str)
    ensures forall k :: |Distinct(ImportEntries(FindAll(PluginPythonImport, str, 0)))| <= k < |PyModules(str)| ==>
      PyModules(str)[k] in FromEntries(FindAll(PluginPythonFrom, str, 0))
      && PyModules(str)[k] !in ImportEntries(FindAll(PluginPythonImport, str, 0))
  {
    PyEntriesNoDot(FindAll(PluginPythonImport, str, 0), FindAll(PluginPythonFrom, str, 0));
    DistinctConcat(ImportEntries(FindAll(PluginPythonImport, str, 0)), FromEntries(FindAll(PluginPythonFrom, str, 0)));
  }

  /** The first two clauses of `PyModulesProperties`, for any `import` and `from` matches. */
  lemma PyEntriesNoDot(ims: seq<Match>, fms: seq<Match>)
    requires forall i :: 0 <= i < |ims| ==> |ims[i].groups| >= 1
    requires forall i :: 0 <= i < |fms| ==> |fms[i].groups| >= 1
    ensures NoDuplicates(Distinct(ImportEntries(ims) + FromEntries(fms)))
    ensures forall x :: x in Distinct(ImportEntries(ims) + FromEntries(fms)) ==> '.' !in x
  {
    var i := ImportEntries(ims);
    var f := FromEntries(fms);
    DistinctProperties(i + f);
    ImportEntriesNoDot(ims);
    forall x | x in Distinct(i + f) ensures '.' !in x {
      assert x in i + f;
    }
  }

  lemma {:induction false} ImportEntriesNoDot(ms: seq<Match>)
    requires forall i :: 0 <= i < |ms| ==> |ms[i].groups| >= 1
    ensures forall x :: x in ImportEntries(ms) ==> '.' !in x
    decreases |ms|
  {
    if |ms| > 0 {
      ImportEntriesNoDot(ms[1..]);
    }
  }

  /** `from . import x`: the package `.` gives the empty entry. */
  lemma RelativeFromIsEmpty(pkg: string)
    requires |pkg| > 0 && pkg[0] == '.'
    ensures FirstSegment(pkg) == ""
  {
  }

  /** `import a as x, b`: only the text before the first `" as "` counts, so `b` is lost. */
  lemma ImportAsDropsRest()
    ensures ClauseModules(Clauses("a as x, b")) == ["a"]
  {
    var s := "a as x, b";
    assert s[1..5] == " as ";
    assert s[0] != ' ' && s[2] != ' ' && s[3] != ' ' && s[5] != 'a';
    assert !OccursAt(s, " as ", 0) && !OccursAt(s, " as ", 2) && !OccursAt(s, " as ", 3);
    assert !OccursAt(s, " as ", 4) by { assert s[4..8][1] == s[5]; }
    assert BeforeFirst(s, " as ") == "a";
    assert SplitOn("a", ',') == ["a"];
    assert TrimJs("a") == "a";
  }

  // ---------------------------------------------------------------- requirements.txt

  /** What `parseRequirementsTxt` returns: the leading word of every requirement line, duplicates kept. */
  function Requirements(str: string): seq<string> {
    FindAllStrings(PluginRequirement, str)
  }

  /**
    The maximal `[A-Za-z0-9_]` run at every line start (position 0 or just
    after a line terminator) at or after `from` that begins with such a
    character, in text order.
   */
  function LineStartWords(s: string, from: nat): seq<string>
    requires from <= |s|
    decreases |s| - from
  {
    if from == |s| then []
    else if AtLineStart(s, from) && IsWordChar(s[from]) then
      [s[from..Skip(s, from, IsWordChar)]] + LineStartWords(s, from + 1)
    else LineStartWords(s, from + 1)
  }

  /** Positions where the regex cannot match contribute no word. */
  lemma {:induction false} LineStartWordsSkip(s: string, a: nat, b: nat)
    requires a <= b <= |s|
    requires forall p :: a <= p < b ==> MatchAt(PluginRequirement, s, p).None?
    ensures LineStartWords(s, a) == LineStartWords(s, b)
    decreases b - a
  {
    if a < b {
      assert MatchAt(PluginRequirement, s, a).None?;
      LineStartWordsSkip(s, a + 1, b);
    }
  }

  /** The requirement entries are exactly the line-start words. */
  lemma {:induction false} RequirementsAreLineStartWords(s: string, from: nat)
    requires from <= |s|
    ensures Column(FindAll(PluginRequirement, s, from), 0) == LineStartWords(s, from)
    decreases |s| - from
  {
    match Exec(PluginRequirement, s, from)
    case None =>
      LineStartWordsSkip(s, from, |s|);
    case Some(f) =>
      var i := f.index;
      var e := f.m.end;
      LineStartWordsSkip(s, from, i);
      var m := Skip(s, i, IsWordChar);
      assert PluginRequirementAt(s, i) == Some(f.m);
      forall p | i + 1 <= p < e ensures MatchAt(PluginRequirement, s, p).None? {
        RequirementInterior(s, i, p);
      }
      LineStartWordsSkip(s, i + 1, e);
      RequirementsAreLineStartWords(s, e);
      var ms := FindAll(PluginRequirement, s, from);
      assert ms == [f.m] + FindAll(PluginRequirement, s, e);
      assert ms[1..] == FindAll(PluginRequirement, s, e);
  }

  /** No requirement match starts strictly inside another one: no line starts there. */
  lemma RequirementInterior(s: string, i: nat, p: nat)
    requires i < p <= |s| && PluginRequirementAt(s, i).Some? && p < PluginRequirementAt(s, i).value.end
    ensures !AtLineStart(s, p)
  {
    assert IsWordChar(s[p - 1]);
  }

  lemma RequirementsProperties(str: string)
    ensures Requirements(str) == LineStartWords(str, 0)
  {
    RequirementsAreLineStartWords(str, 0);
  }

  // ---------------------------------------------------------------- manifests

  /**
    What `JSON.parse(str).dependencies` yields: an exception (text that is
    not JSON, or a document whose `dependencies` cannot be read), or the
    keys of the `dependencies` value in order when it is present and truthy.
   */
  datatype JsonOutcome = JsonError | JsonDependencies(keys: Option<seq<string>>)

  /** One `<dependency>` of a POM: its first `groupId` and first `artifactId`. */
  datatype Dependency = Dependency(groupId: string, artifactId: string)

  /** What `xml2js.parseString` hands its callback: an error, or the dependencies of the project. */
  datatype PomOutcome = PomError | PomDependencies(deps: seq<Dependency>)

  function Coordinate(d: Dependency): string {
    d.groupId + ":" + d.artifactId
  }

  function Coordinates(deps: seq<Dependency>): (r: seq<string>)
    ensures |r| == |deps| && forall i :: 0 <= i < |deps| ==> r[i] == Coordinate(deps[i])
    decreases |deps|
  {
    if |deps| == 0 then [] else [Coordinate(deps[0])] + Coordinates(deps[1..])
  }

  /** A coordinate splits back into its group and artifact when the group has no colon. */
  lemma CoordinateSplit(d: Dependency)
    requires ':' !in d.groupId
    ensures SplitOn(Coordinate(d), ':')[0] == d.groupId
  {
    var c := Coordinate(d);
    assert c[|d.groupId|] == ':';
    assert c[..|d.groupId|] == d.groupId;
  }

  /** What the package-to-module mapping service answers. */
  datatype Mapping = Mapped(modules: seq<string>) | MappingFailed

  /**
    An open text editor, by identity: one editor is told from another by
    `id`, and its document has the name `fileName`. What the document holds
    changes as the user types, so it is not part of the editor: the methods
    that read it take `getText`, each editor's document text at the time of
    the call (`doc.getText()`).
   */
  datatype Editor = Editor(id: nat, fileName: string)

  /** What `getActiveContext` passes to its callback. */
  datatype Reply = Reply(context: seq<string>, tag: string)

  // ---------------------------------------------------------------- suggestions

  /** `raw.filter(m => m.startsWith(mod + ':') || m === mod)`. */
  function RawFor(raw: seq<string>, mod: string): (r: seq<string>)
    decreases |raw|
  {
    if |raw| == 0 then []
    else if mod + ":" <= raw[0] || raw[0] == mod then [raw[0]] + RawFor(raw[1..], mod)
    else RawFor(raw[1..], mod)
  }

  /** The raw entries kept for a module are the ones that name it, alone or with a `:` suffix. */
  lemma {:induction false} RawForMembers(raw: seq<string>, mod: string)
    ensures forall x :: x in RawFor(raw, mod) <==> x in raw && (x == mod || mod + ":" <= x)
    decreases |raw|
  {
    if |raw| > 0 {
      RawForMembers(raw[1..], mod);
      assert raw == [raw[0]] + raw[1..];
    }
  }

  /** The filter keeps raw order: filtering a concatenation concatenates the filtered parts. */
  lemma {:induction false} RawForAppend(a: seq<string>, b: seq<string>, mod: string)
    ensures RawFor(a + b, mod) == RawFor(a, mod) + RawFor(b, mod)
    decreases |a|
  {
    if |a| == 0 {
      assert a + b == b;
    } else {
      assert (a + b)[0] == a[0];
      assert (a + b)[1..] == a[1..] + b;
      RawForAppend(a[1..], b, mod);
    }
  }

  /** `intent.toLowerCase().replace(/ /g, '_')`. */
  function NormalizeIntent(intent: string): (r: string)
    ensures |r| == |intent|
    ensures forall i :: 0 <= i < |intent| ==> r[i] == if intent[i] == ' ' then '_' else LowerChar(intent[i])
  {
    ReplaceChar(Lower(intent), ' ', '_')
  }

  /** A normalised intent has no space and no capital letter, and normalising it again changes nothing. */
  lemma NormalizeIntentProperties(intent: string)
    ensures ' ' !in NormalizeIntent(intent)
    ensures forall c :: c in NormalizeIntent(intent) ==> !('A' <= c <= 'Z')
    ensures NormalizeIntent(NormalizeIntent(intent)) == NormalizeIntent(intent)
  {
    var r := NormalizeIntent(intent);
    assert forall i :: 0 <= i < |r| ==> r[i] != ' ' && !('A' <= r[i] <= 'Z');
    assert NormalizeIntent(r) == r;
  }

  // ---------------------------------------------------------------- the extension

  /** The editor that `getActiveContext` reads: the remembered one, else the active one, else the first visible one; if that one's file kind is not supported, the first visible one. */
  function ChosenEditor(current: Option<Editor>, active: Option<Editor>, visible: seq<Editor>): (e: Editor)
    requires |visible| > 0
    ensures e == visible[0] || IsSupportedFileExtension(GetFileExtension(e.fileName))
    ensures current.Some? && IsSupportedFileExtension(GetFileExtension(current.value.fileName)) ==> e == current.value
    ensures current.None? && active.Some? && IsSupportedFileExtension(GetFileExtension(active.value.fileName)) ==> e == active.value
    ensures current.Some? && !IsSupportedFileExtension(GetFileExtension(current.value.fileName)) ==> e == visible[0]
    ensures current.None? && active.Some? && !IsSupportedFileExtension(GetFileExtension(active.value.fileName)) ==> e == visible[0]
    ensures current.None? && active.None? ==> e == visible[0]
  {
    var first := if current.Some? then current.value else if active.Some? then active.value else visible[0];
    if IsSupportedFileExtension(GetFileExtension(first.fileName)) then first else visible[0]
  }

  /**
    The reply of `getActiveContext` for a file of kind `ext` and text `str`,
    and the language `lang` it leaves behind when it was `lang0`: for Java,
    what the mapping service returns for the packages; for a `package.json`
    that does not parse, no modules and the language unchanged.
   */
  predicate ContextReply(ext: string, str: string, json: string -> JsonOutcome, xml: string -> PomOutcome,
                         mapper: (string, seq<string>) -> Mapping, lang0: string, lang: string, reply: Reply)
  {
    (ext == ".java" ==> (lang == "java" &&
      reply == (match mapper("java", JavaPackages(str))
                case Mapped(mods) => Reply(mods, "java")
                case MappingFailed => Reply([], "java"))))
    && (ext == ".js" ==> reply == Reply(JsModules(str), "js"))
    && (ext == ".py" ==> reply == Reply(PyModules(str), "python"))
    && (ext == ".xml" ==> reply == Reply(if xml(str).PomDependencies? then Coordinates(xml(str).deps) else [], "java"))
    && (ext == ".json" ==> (reply.context == (if json(str).JsonDependencies? && json(str).keys.Some? then json(str).keys.value else [])
         && reply.tag == lang && lang == (if json(str).JsonError? then lang0 else "js")))
    && (ext == ".txt" ==> reply == Reply(Requirements(str), "python"))
  }

  class Extension {
    /** The editor the context is read from: the launching one at first, later the one the active-editor handler or `getActiveContext` set. */
    var editor: Option<Editor>
    /** The language sent with every request. */
    var language: string
    /** Suggested module to the raw modules it stands for (used for highlighting). */
    var suggestCache: map<string, seq<string>>
    /** The context last received from `getActiveContext`, sent with the requests. */
    var ctx: seq<string>

    constructor(active: Option<Editor>)
      ensures editor == active && language == "java" && suggestCache == map[] && ctx == []
    {
      editor := active;
      language := "java";
      suggestCache := map[];
      ctx := [];
    }

    method SetLanguage(lang: string)
      modifies this
      ensures language == lang && editor == old(editor) && suggestCache == old(suggestCache) && ctx == old(ctx)
    {
      language := lang;
    }

    /** `parseJava`: the packages of `import` statements, each once, in order of first import. */
    method ParseJava(str: string) returns (imps: seq<string>)
      modifies this
      ensures imps == JavaPackages(str)
      ensures language == "java" && editor == old(editor) && suggestCache == old(suggestCache) && ctx == old(ctx)
    {
      SetLanguage("java");
      imps := ImportedPackages(PluginJavaImport, str);
    }

    /** The `exec` loop of `parseJava`: the package of every captured path, when new. */
    static method ImportedPackages(re: WfRegex, str: string) returns (imps: seq<string>)
      requires re.groups == 1
      ensures imps == Distinct(Packages(FindAllStrings(re, str)))
    {
      imps := [];
      var lastIndex := 0;
      var found := Exec(re, str, lastIndex);
      while found.Some?
        invariant lastIndex <= |str|
        invariant found == Exec(re, str, lastIndex)
        invariant AppendAbsent(imps, Packages(Column(FindAll(re, str, lastIndex), 0))) == Distinct(Packages(FindAllStrings(re, str)))
        decreases |str| - lastIndex
      {
        var m := found.value.m;
        ghost var rest := FindAll(re, str, m.end);
        ColumnExec(re, str, lastIndex, 0);
        assert Packages([m.groups[0]] + Column(rest, 0)) == [PackageOf(m.groups[0])] + Packages(Column(rest, 0));
        var packageImp := PackageOf(m.groups[0]);
        if IndexOf(imps, packageImp).None? {
          imps := imps + [packageImp];
        }
        lastIndex := m.end;
        found := Exec(re, str, lastIndex);
      }
    }

    /** One regex of `parseJavaScript`: every accepted capture that is not yet present is appended. */
    method ScanAccepted(re: WfRegex, str: string, imps0: seq<string>) returns (imps: seq<string>)
      ensures imps == AppendAbsent(imps0, JsCandidates(re, str))
    {
      imps := imps0;
      var lastIndex := 0;
      var found := Exec(re, str, lastIndex);
      while found.Some?
        invariant lastIndex <= |str|
        invariant found == Exec(re, str, lastIndex)
        invariant AppendAbsent(imps, AcceptedOnly(Groups(FindAll(re, str, lastIndex)))) == AppendAbsent(imps0, JsCandidates(re, str))
        decreases |str| - lastIndex
      {
        var m := found.value.m;
        ghost var rest := FindAll(re, str, m.end);
        assert FindAll(re, str, lastIndex) == [m] + rest;
        assert Groups([m] + rest) == m.groups + Groups(rest);
        AcceptedOnlyAppend(m.groups, Groups(rest));
        AppendAbsentConcat(imps, AcceptedOnly(m.groups), AcceptedOnly(Groups(rest)));
        imps := AddAccepted(imps, m.groups);
        lastIndex := m.end;
        found := Exec(re, str, lastIndex);
      }
    }

    /** The `forEach` over the groups of one match: every accepted group that is not yet present is appended. */
    static method AddAccepted(imps0: seq<string>, groups: seq<string>) returns (imps: seq<string>)
      ensures imps == AppendAbsent(imps0, AcceptedOnly(groups))
    {
      imps := imps0;
      for g := 0 to |groups|
        invariant AppendAbsent(imps, AcceptedOnly(groups[g..])) == AppendAbsent(imps0, AcceptedOnly(groups))
      {
        var match_ := groups[g];
        assert groups[g..] == [match_] + groups[g + 1..];
        if Accepted(match_) && IndexOf(imps, match_).None? {
          imps := imps + [match_];
        }
      }
    }

    /** `parseJavaScript`: `require` specifiers, then ES-import captures, each once and accepted. */
    method ParseJavaScript(str: string) returns (imps: seq<string>)
      modifies this
      ensures imps == JsModules(str)
      ensures language == "js" && editor == old(editor) && suggestCache == old(suggestCache) && ctx == old(ctx)
    {
      SetLanguage("js");
      imps := [];
      for i := 0 to |JsRegexes|
        invariant imps == AppendAbsent([], if i == 0 then [] else if i == 1 then JsCandidates(Require, str) else JsCandidates(Require, str) + JsCandidates(JsEsImport, str))
        invariant language == "js" && editor == old(editor) && suggestCache == old(suggestCache) && ctx == old(ctx)
      {
        imps := ScanAccepted(JsRegexes[i], str, imps);
        if i == 1 {
          AppendAbsentConcat([], JsCandidates(Require, str), JsCandidates(JsEsImport, str));
        }
      }
    }

    /** `parsePython`: modules of `import` lines, then packages of `from` lines, each once. */
    method ParsePython(str: string) returns (imps: seq<string>)
      modifies this
      ensures imps == PyModules(str)
      ensures language == "python" && editor == old(editor) && suggestCache == old(suggestCache) && ctx == old(ctx)
    {
      SetLanguage("python");
      imps := [];
      ghost var importsPart := AppendAbsent([], ImportEntries(FindAll(PluginPythonImport, str, 0)));
      var lastIndex := 0;
      var found := Exec(PluginPythonImport, str, lastIndex);
      while found.Some?
        invariant lastIndex <= |str|
        invariant found == Exec(PluginPythonImport, str, lastIndex)
        invariant AppendAbsent(imps, ImportEntries(FindAll(PluginPythonImport, str, lastIndex))) == importsPart
        invariant language == "python" && editor == old(editor) && suggestCache == old(suggestCache) && ctx == old(ctx)
        decreases |str| - lastIndex
      {
        var m := found.value.m;
        ghost var rest := FindAll(PluginPythonImport, str, m.end);
        assert FindAll(PluginPythonImport, str, lastIndex) == [m] + rest;
        assert ImportEntries([m] + rest) == ClauseModules(Clauses(m.groups[0])) + ImportEntries(rest);
        var impps := Clauses(m.groups[0]);
        AppendAbsentConcat(imps, ClauseModules(impps), ImportEntries(rest));
        imps := AddClauseModules(imps, impps);
        lastIndex := m.end;
        found := Exec(PluginPythonImport, str, lastIndex);
      }
      assert imps == importsPart;
      lastIndex := 0;
      found := Exec(PluginPythonFrom, str, lastIndex);
      while found.Some?
        invariant lastIndex <= |str|
        invariant found == Exec(PluginPythonFrom, str, lastIndex)
        invariant AppendAbsent(imps, FromEntries(FindAll(PluginPythonFrom, str, lastIndex)))
          == AppendAbsent(importsPart, FromEntries(FindAll(PluginPythonFrom, str, 0)))
        invariant language == "python" && editor == old(editor) && suggestCache == old(suggestCache) && ctx == old(ctx)
        decreases |str| - lastIndex
      {
        var m := found.value.m;
        ghost var rest := FindAll(PluginPythonFrom, str, m.end);
        assert FindAll(PluginPythonFrom, str, lastIndex) == [m] + rest;
        var from := m.groups[0];
        var impps := Clauses(m.groups[1]);
        imps := AddFromModule(imps, from, impps);
        lastIndex := m.end;
        found := Exec(PluginPythonFrom, str, lastIndex);
      }
      AppendAbsentConcat([], ImportEntries(FindAll(PluginPythonImport, str, 0)), FromEntries(FindAll(PluginPythonFrom, str, 0)));
    }

    /** The `forEach` over the clauses of one `import` match: each clause's first segment, when new. */
    static method AddClauseModules(imps0: seq<string>, impps: seq<string>) returns (imps: seq<string>)
      ensures imps == AppendAbsent(imps0, ClauseModules(impps))
    {
      imps := imps0;
      for k := 0 to |impps|
        invariant imps == AppendAbsent(imps0, ClauseModules(impps[..k]))
      {
        var imp := TrimJs(impps[k]);
        imp := FirstSegment(imp);
        assert ClauseModules(impps[..k + 1]) == ClauseModules(impps[..k]) + [imp];
        AppendAbsentSnoc(imps0, ClauseModules(impps[..k]), imp);
        if IndexOf(imps, imp).None? {
          imps := imps + [imp];
        }
      }
      assert impps[..|impps|] == impps;
    }

    /**
      The `forEach` over the clauses of one `from` match: every clause adds the
      first segment of the package (not of the clause), so it is added once
      when new.
     */
    static method AddFromModule(imps0: seq<string>, from: string, impps: seq<string>) returns (imps: seq<string>)
      ensures imps == if |impps| == 0 then imps0 else AddAbsent(imps0, FirstSegment(from))
    {
      imps := imps0;
      for k := 0 to |impps|
        invariant imps == if k == 0 then imps0 else AddAbsent(imps0, FirstSegment(from))
      {
        var imp := from;
        imp := FirstSegment(imp);
        if IndexOf(imps, imp).None? {
          imps := imps + [imp];
        }
      }
    }

    /** `parseRequirementsTxt`: every capture, duplicates kept; then the language becomes Python. */
    method ParseRequirementsTxt(str: string) returns (imps: seq<string>)
      modifies this
      ensures imps == Requirements(str)
      ensures language == "python" && editor == old(editor) && suggestCache == old(suggestCache) && ctx == old(ctx)
    {
      imps := FirstGroups(PluginRequirement, str);
      SetLanguage("python");
    }

    /** The `exec` loop of `parseRequirementsTxt`: group 1 of every match, in order. */
    static method FirstGroups(re: WfRegex, str: string) returns (imps: seq<string>)
      requires re.groups == 1
      ensures imps == FindAllStrings(re, str)
    {
      imps := [];
      var lastIndex := 0;
      var found := Exec(re, str, lastIndex);
      while found.Some?
        invariant lastIndex <= |str|
        invariant found == Exec(re, str, lastIndex)
        invariant imps + Column(FindAll(re, str, lastIndex), 0) == FindAllStrings(re, str)
        decreases |str| - lastIndex
      {
        var m := found.value.m;
        ColumnExec(re, str, lastIndex, 0);
        AppendAssoc(imps, [m.groups[0]], Column(FindAll(re, str, m.end), 0));
        imps := imps + [m.groups[0]];
        lastIndex := m.end;
        found := Exec(re, str, lastIndex);
      }
    }

    /** `parsePackageJson`: the dependency names; on an exception the language is left as it was. */
    method ParsePackageJson(str: string, json: string -> JsonOutcome) returns (imps: seq<string>)
      modifies this
      ensures json(str).JsonError? ==> imps == [] && language == old(language)
      ensures json(str).JsonDependencies? ==> (language == "js" &&
        imps == (if json(str).keys.Some? then json(str).keys.value else []))
      ensures editor == old(editor) && suggestCache == old(suggestCache) && ctx == old(ctx)
    {
      imps := [];
      var obj := json(str);
      if obj.JsonDependencies? {
        var deps := obj.keys;
        if deps.Some? {
          imps := deps.value;
        }
        SetLanguage("js");
      }
    }

    /** `parsePomXml`: `groupId:artifactId` of every dependency, in document order, duplicates kept. */
    method ParsePomXml(str: string, xml: string -> PomOutcome) returns (imps: seq<string>)
      modifies this
      ensures xml(str).PomError? ==> imps == []
      ensures xml(str).PomDependencies? ==> imps == Coordinates(xml(str).deps)
      ensures language == "java" && editor == old(editor) && suggestCache == old(suggestCache) && ctx == old(ctx)
    {
      SetLanguage("java");
      imps := [];
      var result := xml(str);
      if result.PomDependencies? {
        var deps := result.deps;
        for i := 0 to |deps|
          invariant imps == Coordinates(deps[..i])
        {
          var imp := deps[i].groupId + ":" + deps[i].artifactId;
          assert Coordinates(deps[..i + 1]) == Coordinates(deps[..i]) + [imp] by {
            CoordinatesSnoc(deps[..i], deps[i]);
            assert deps[..i + 1] == deps[..i] + [deps[i]];
          }
          imps := imps + [imp];
        }
        assert deps[..|deps|] == deps;
      }
    }

    /**
      The success branch of `getModulesForIntent`: the cache is emptied, then
      every filtered module gets its raw entries.
     */
    method FillSuggestCache(filtered: seq<string>, raw: seq<string>)
      modifies this
      ensures suggestCache == map mod | mod in filtered :: RawFor(raw, mod)
      ensures editor == old(editor) && language == old(language) && ctx == old(ctx)
    {
      suggestCache := map[];
      for i := 0 to |filtered|
        invariant suggestCache == map mod | mod in filtered[..i] :: RawFor(raw, mod)
        invariant editor == old(editor) && language == old(language) && ctx == old(ctx)
      {
        var mod := filtered[i];
        assert filtered[..i + 1] == filtered[..i] + [mod];
        suggestCache := suggestCache[mod := RawFor(raw, mod)];
      }
      assert filtered[..|filtered|] == filtered;
    }

    /**
      `getActiveContext`: pick the editor, reject unsupported file kinds, run
      the parser for the file kind and reply with the result and the
      language (for Java, with what the mapping service returns for the
      packages).
     */
    method GetActiveContext(visible: seq<Editor>, active: Option<Editor>, getText: Editor -> string,
                            json: string -> JsonOutcome, xml: string -> PomOutcome,
                            mapper: (string, seq<string>) -> Mapping)
      returns (reply: Reply)
      modifies this
      ensures |visible| == 0 ==> reply == Reply([], "no_editor") && editor == old(editor) && language == old(language)
      ensures |visible| > 0 ==> editor == Some(ChosenEditor(old(editor), active, visible))
      ensures |visible| > 0 ==>
        var doc := ChosenEditor(old(editor), active, visible);
        var ext := GetFileExtension(doc.fileName);
        (!IsSupportedFileExtension(ext) ==> reply == Reply([], "unsupported") && language == old(language))
        && (IsSupportedFileExtension(ext) ==> ContextReply(ext, getText(doc), json, xml, mapper, old(language), language, reply) && reply.tag == language)
      ensures suggestCache == old(suggestCache) && ctx == old(ctx)
    {
      if |visible| == 0 {
        return Reply([], "no_editor");
      }
      PickEditor(visible, active);
      var doc := editor.value;
      var ext := GetFileExtension(doc.fileName);
      if !IsSupportedFileExtension(ext) {
        return Reply([], "unsupported");
      }
      reply := ContextOf(ext, getText(doc), json, xml, mapper);
    }

    /**
      `onGetContext`: the reply of `getActiveContext` becomes the context and
      the language of the extension. The tags `no_editor` and `unsupported`
      become the language too, so the requests made after such a reply carry
      that tag in place of a language.
     */
    method OnGetContext(visible: seq<Editor>, active: Option<Editor>, getText: Editor -> string,
                        json: string -> JsonOutcome, xml: string -> PomOutcome,
                        mapper: (string, seq<string>) -> Mapping)
      returns (reply: Reply)
      modifies this
      ensures ctx == reply.context && language == reply.tag
      ensures |visible| == 0 ==> reply == Reply([], "no_editor") && editor == old(editor)
      ensures |visible| > 0 ==> editor == Some(ChosenEditor(old(editor), active, visible))
      ensures |visible| > 0 ==>
        var doc := ChosenEditor(old(editor), active, visible);
        var ext := GetFileExtension(doc.fileName);
        (!IsSupportedFileExtension(ext) ==> reply == Reply([], "unsupported"))
        && (IsSupportedFileExtension(ext) ==> ContextReply(ext, getText(doc), json, xml, mapper, old(language), language, reply))
      ensures suggestCache == old(suggestCache)
    {
      reply := GetActiveContext(visible, active, getText, json, xml, mapper);
      ctx := reply.context;
      language := reply.tag;
    }

    /**
      The `onDidChangeActiveTextEditor` handler: the newly active editor
      becomes the remembered one, and the context is fetched again from it
      (or from the first visible editor when its file kind is unsupported).
     */
    method OnDidChangeActiveTextEditor(edit: Editor, visible: seq<Editor>, active: Option<Editor>,
                                       getText: Editor -> string, json: string -> JsonOutcome,
                                       xml: string -> PomOutcome, mapper: (string, seq<string>) -> Mapping)
      returns (reply: Reply)
      modifies this
      ensures ctx == reply.context && language == reply.tag
      ensures |visible| == 0 ==> reply == Reply([], "no_editor") && editor == Some(edit)
      ensures |visible| > 0 ==> editor == Some(ChosenEditor(Some(edit), active, visible))
      ensures |visible| > 0 && IsSupportedFileExtension(GetFileExtension(edit.fileName)) ==>
        editor == Some(edit) &&
        ContextReply(GetFileExtension(edit.fileName), getText(edit), json, xml, mapper, old(language), language, reply)
      ensures |visible| > 0 && !IsSupportedFileExtension(GetFileExtension(edit.fileName)) ==>
        var doc := visible[0];
        var ext := GetFileExtension(doc.fileName);
        (!IsSupportedFileExtension(ext) ==> reply == Reply([], "unsupported"))
        && (IsSupportedFileExtension(ext) ==> ContextReply(ext, getText(doc), json, xml, mapper, old(language), language, reply))
      ensures suggestCache == old(suggestCache)
    {
      editor := Some(edit);
      reply := OnGetContext(visible, active, getText, json, xml, mapper);
    }

    /** The editor `getActiveContext` reads: the remembered one (the launching one, or the one the active-editor handler set), else the active one, else the first visible; the first visible when that file kind is unsupported. */
    method PickEditor(visible: seq<Editor>, active: Option<Editor>)
      requires |visible| > 0
      modifies this
      ensures editor == Some(ChosenEditor(old(editor), active, visible))
      ensures language == old(language) && suggestCache == old(suggestCache) && ctx == old(ctx)
    {
      var doc := if editor.Some? then editor.value else if active.Some? then active.value else visible[0];
      if !IsSupportedFileExtension(GetFileExtension(doc.fileName)) {
        doc := visible[0];
      }
      editor := Some(doc);
    }

    /**
      The `switch` of `getActiveContext`: the parser for the file kind, and the
      reply with its result and the language it leaves (for Java, with what
      the mapping service returns for the packages).
     */
    method ContextOf(ext: string, str: string, json: string -> JsonOutcome,
                     xml: string -> PomOutcome, mapper: (string, seq<string>) -> Mapping)
      returns (reply: Reply)
      modifies this
      ensures ContextReply(ext, str, json, xml, mapper, old(language), language, reply)
      ensures reply.tag == language
      ensures !IsSupportedFileExtension(ext) ==> reply == Reply([], old(language)) && language == old(language)
      ensures editor == old(editor) && suggestCache == old(suggestCache) && ctx == old(ctx)
    {
      var imps: seq<string> := [];
      if ext == ".java" {
        imps := ParseJava(str);
        var mods := mapper(language, imps);
        match mods
        case MappingFailed => return Reply([], language);
        case Mapped(m) => return Reply(m, language);
      } else if ext == ".js" {
        imps := ParseJavaScript(str);
      } else if ext == ".py" {
        imps := ParsePython(str);
      } else if ext == ".xml" {
        imps := ParsePomXml(str, xml);
      } else if ext == ".json" {
        imps := ParsePackageJson(str, json);
      } else if ext == ".txt" {
        imps := ParseRequirementsTxt(str);
      }
      reply := Reply(imps, language);
    }
  }

  lemma CoordinatesSnoc(deps: seq<Dependency>, d: Dependency)
    ensures Coordinates(deps + [d]) == Coordinates(deps) + [Coordinate(d)]
  {
  }
}
