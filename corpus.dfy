/**
  The corpus extractor `scripts/extract_imports.py`: for one language, the
  import entries of every source file of a checked-out project, keyed by
  the file's path without its first four segments.

  Globbing and reading files are not modelled: a folder is the list of its
  matching files, each with its text, or with `None` when opening it
  failed. The Python compiler is not modelled either: a Python file comes
  with its instructions, or `None` when reading or compiling it failed.
 */
module Corpus {
  import opened Wrappers
  import opened Text
  import opened Ordered
  import opened Dicts
  import opened Patterns
  import opened Comments
  import opened PyImports

  // ---------------------------------------------------------------- helpers

  /** `strip_path_prefix(fname, strip)`: the `/`-separated segments after the first `strip`, rejoined. */
  function StripPathPrefix(fname: string, strip: nat): string
  {
    var parts := SplitOn(fname, '/');
    Join(parts[if strip <= |parts| then strip else |parts|..], "/")
  }

  /** The number of leading segments dropped from every key. */
  const DefaultStrip: nat := 4

  /**
    Dropping no segment keeps the path; dropping all of them leaves the
    empty string; otherwise the path is the dropped segments, a `/`, and
    the result.
   */
  lemma StripPathPrefixProperties(fname: string, strip: nat)
    ensures StripPathPrefix(fname, 0) == fname
    ensures strip >= |SplitOn(fname, '/')| ==> StripPathPrefix(fname, strip) == ""
    ensures 0 < strip < |SplitOn(fname, '/')| ==>
      fname == Join(SplitOn(fname, '/')[..strip], "/") + "/" + StripPathPrefix(fname, strip)
  {
    var parts := SplitOn(fname, '/');
    JoinSplitOn(fname, '/');
    assert parts[0..] == parts;
    if strip >= |parts| {
      assert parts[|parts|..] == [];
    }
    if 0 < strip < |parts| {
      assert parts == parts[..strip] + parts[strip..];
      JoinAppend(parts[..strip], parts[strip..], "/");
    }
  }

  /** `get_elems_idx(tuplelist, idx)`: component `idx` of every tuple. */
  function GetElemsIdx<T>(tuples: seq<seq<T>>, idx: nat): (r: seq<T>)
    requires forall i :: 0 <= i < |tuples| ==> idx < |tuples[i]|
    ensures |r| == |tuples|
    ensures forall i :: 0 <= i < |tuples| ==> r[i] == tuples[i][idx]
  {
    seq(|tuples|, i requires 0 <= i < |tuples| => tuples[i][idx])
  }

  /** Projecting the `findall` tuples of a regex on a group gives that group of every match. */
  lemma ElemsIdxIsColumn(re: WfRegex, s: string, g: nat)
    requires g < re.groups
    ensures GetElemsIdx(FindAllTuples(re, s), g) == Column(FindAll(re, s, 0), g)
  {
    var ms := FindAll(re, s, 0);
    assert |GetElemsIdx(FindAllTuples(re, s), g)| == |ms|;
  }

  /** A regex all of whose matches need `kw` in the text finds something only in a text with `kw`. */
  lemma MatchNeedsKeyword(re: WfRegex, s: string, kw: string)
    requires forall p :: 0 <= p <= |s| && MatchAt(re, s, p).Some? ==> Contains(s, kw)
    ensures |FindAll(re, s, 0)| > 0 ==> Contains(s, kw)
  {
    if |FindAll(re, s, 0)| > 0 {
      var f := Exec(re, s, 0).value;
      assert MatchAt(re, s, f.index).Some?;
    }
  }

  function Prefixed(prefix: string, xs: seq<string>): (r: seq<string>)
    ensures |r| == |xs| && forall i :: 0 <= i < |xs| ==> r[i] == prefix + xs[i]
  {
    seq(|xs|, i requires 0 <= i < |xs| => prefix + xs[i])
  }

  /** Every name gets the prefix, and taking it off again gives the name back. */
  lemma PrefixedProperties(prefix: string, xs: seq<string>)
    ensures forall x :: x in Prefixed(prefix, xs) ==> prefix <= x
    ensures forall i :: 0 <= i < |xs| ==> Prefixed(prefix, xs)[i][|prefix|..] == xs[i]
  {
    var r := Prefixed(prefix, xs);
    forall i | 0 <= i < |xs| ensures prefix <= r[i] && r[i][|prefix|..] == xs[i] {
      assert r[i] == prefix + xs[i];
    }
  }

  // ---------------------------------------------------------------- the regexes

  /**
    The script's compiled regexes. The rules below take them as a
    parameter, so that reasoning about the loops does not look inside the
    recognisers; `Script` holds the real ones.
   */
  datatype ScriptRegexes = ScriptRegexes(
    require: WfRegex, esImport: WfRegex, javaImport: WfRegex, csUsing: WfRegex, csUsingStatic: WfRegex,
    useFunction: WfRegex, useConst: WfRegex, plainUse: WfRegex, lists: PhpListRegexes,
    rubyRequire: WfRegex, rubyRequireRelative: WfRegex)

  /** The numbers of capture groups the rules rely on. */
  predicate Counted(rx: ScriptRegexes) {
    rx.require.groups == 1 && rx.esImport.groups == 2 && rx.javaImport.groups == 1
    && rx.csUsing.groups == 1 && rx.csUsingStatic.groups == 1
    && rx.useFunction.groups == 1 && rx.useConst.groups == 1 && rx.plainUse.groups == 1 && GroupCounts(rx.lists)
    && rx.rubyRequire.groups == 1 && rx.rubyRequireRelative.groups == 1
  }

  /** The three regexes that take a PHP use list apart. */
  datatype PhpListRegexes = PhpListRegexes(simpleList: WfRegex, complexList: WfRegex, groupSplit: WfRegex)

  predicate GroupCounts(rx: PhpListRegexes) {
    rx.simpleList.groups == 1 && rx.complexList.groups == 2 && rx.groupSplit.groups == 2
  }

  const PhpLists: PhpListRegexes := PhpListRegexes(PhpSimpleList, PhpComplexList, PhpGroupSplit)

  const Script: ScriptRegexes := ScriptRegexes(
    Require, PyEsImport, JavaImport, CsUsing, CsUsingStatic,
    PhpUseFunction, PhpUseConst, PhpUse, PhpLists,
    RubyRequire, RubyRequireRelative)

  // ---------------------------------------------------------------- one line

  /** The imports of one JavaScript line: `require(...)` modules, then the module of every ES import. */
  function JsLineImports(rx: ScriptRegexes, line: string): seq<string>
    requires Counted(rx)
  {
    (if Contains(line, "require") then FindAllStrings(rx.require, line) else [])
    + (if Contains(line, "import") then GetElemsIdx(FindAllTuples(rx.esImport, line), 1) else [])
  }

  /** The imports of one Java line: the path of every `import ...;` statement. */
  function JavaLineImports(rx: ScriptRegexes, line: string): seq<string>
    requires Counted(rx)
  {
    if Contains(line, "import") then FindAllStrings(rx.javaImport, line) else []
  }

  /** The imports of one C# line: every plain `using`, then every `using static`. */
  function CsLineImports(rx: ScriptRegexes, line: string): seq<string>
    requires Counted(rx)
  {
    if Contains(line, "using") then FindAllStrings(rx.csUsing, line) + FindAllStrings(rx.csUsingStatic, line) else []
  }

  /** The imports of one Ruby line: every `require`, then every `require_relative` with `./` put in front. */
  function RubyLineImports(rx: ScriptRegexes, line: string): seq<string>
    requires Counted(rx)
  {
    (if Contains(line, "require") then FindAllStrings(rx.rubyRequire, line) else [])
    + (if Contains(line, "require_relative") then Prefixed("./", FindAllStrings(rx.rubyRequireRelative, line)) else [])
  }

  /**
    The substring tests in front of the regexes only save time: each line
    gives what its regexes find, `require` matches before ES imports.
   */
  lemma JsLineGuards(line: string)
    ensures JsLineImports(Script, line) == FindAllStrings(Require, line) + GetElemsIdx(FindAllTuples(PyEsImport, line), 1)
  {
    if !Contains(line, "require") {
      MatchNeedsKeyword(Require, line, "require");
    }
    if !Contains(line, "import") {
      forall p | 0 <= p <= |line| && MatchAt(PyEsImport, line, p).Some? ensures Contains(line, "import") {
        assert OccursAt(line, "import", p);
      }
      MatchNeedsKeyword(PyEsImport, line, "import");
    }
  }

  lemma JavaLineGuards(line: string)
    ensures JavaLineImports(Script, line) == FindAllStrings(JavaImport, line)
  {
    if !Contains(line, "import") {
      MatchNeedsKeyword(JavaImport, line, "import");
    }
  }

  lemma CsLineGuards(line: string)
    ensures CsLineImports(Script, line) == FindAllStrings(CsUsing, line) + FindAllStrings(CsUsingStatic, line)
  {
    if !Contains(line, "using") {
      MatchNeedsKeyword(CsUsing, line, "using");
      MatchNeedsKeyword(CsUsingStatic, line, "using");
    }
  }

  lemma RubyLineGuards(line: string)
    ensures RubyLineImports(Script, line) ==
      FindAllStrings(RubyRequire, line) + Prefixed("./", FindAllStrings(RubyRequireRelative, line))
  {
    if !Contains(line, "require") {
      MatchNeedsKeyword(RubyRequire, line, "require");
    }
    if !Contains(line, "require_relative") {
      MatchNeedsKeyword(RubyRequireRelative, line, "require_relative");
    }
  }

  // ---------------------------------------------------------------- PHP

  /** The entry of one item `(imptype, impname)` of a group use `useprefix{...}`. */
  function PhpGroupItem(useprefix: string, item: seq<string>, appendix: string): string
    requires |item| == 2
  {
    var realappendix := if item[0] != "" then ":" + Upper(RStrip(item[0])) else appendix;
    ReplaceChar(useprefix + item[1], '\\', '/') + realappendix
  }

  function PhpGroupItems(useprefix: string, items: seq<seq<string>>, appendix: string): seq<string>
    requires forall i :: 0 <= i < |items| ==> |items[i]| == 2
    decreases |items|
  {
    if |items| == 0 then []
    else PhpGroupItems(useprefix, items[..|items| - 1], appendix) + [PhpGroupItem(useprefix, items[|items| - 1], appendix)]
  }

  /** One entry per item, in item order. */
  lemma {:induction false} PhpGroupItemsIndex(useprefix: string, items: seq<seq<string>>, appendix: string)
    requires forall i :: 0 <= i < |items| ==> |items[i]| == 2
    ensures |PhpGroupItems(useprefix, items, appendix)| == |items|
    ensures forall i :: 0 <= i < |items| ==> PhpGroupItems(useprefix, items, appendix)[i] == PhpGroupItem(useprefix, items[i], appendix)
    decreases |items|
  {
    if |items| > 0 {
      PhpGroupItemsIndex(useprefix, items[..|items| - 1], appendix);
    }
  }

  /** What the complex-list regex captures as the type of an item: nothing, or `const` or `function` and the blanks after it. */
  predicate ItemType(t: string) {
    t == "" || KeywordThenSpaces(t, "const") || KeywordThenSpaces(t, "function")
  }

  /** The suffix an item's type keyword calls for, and the statement's own suffix when it has none. */
  function ItemSuffix(imptype: string, appendix: string): string {
    if KeywordThenSpaces(imptype, "const") then ":CONST"
    else if KeywordThenSpaces(imptype, "function") then ":FUNCTION"
    else appendix
  }

  /** Stripping the blanks after a keyword that does not end in a blank gives the keyword. */
  lemma RStripKeyword(t: string, kw: string)
    requires KeywordThenSpaces(t, kw) && |kw| > 0 && !IsPySpace(kw[|kw| - 1])
    ensures RStrip(t) == kw
  {
    var r := RStrip(t);
    assert t[|kw| - 1] == kw[|kw| - 1];
    assert |r| == |kw|;
    assert r == t[..|r|];
  }

  /** Every item the complex-list regex finds has a type of the captured form. */
  lemma ComplexListTypes(body: string)
    ensures forall i :: 0 <= i < |FindAllTuples(PhpComplexList, body)| ==> ItemType(FindAllTuples(PhpComplexList, body)[i][0])
  {
    var P := (m: Match) => |m.groups| == 2 && ItemType(m.groups[0]);
    forall p | 0 <= p <= |body| && MatchAt(PhpComplexList, body, p).Some?
      ensures P(MatchAt(PhpComplexList, body, p).value)
    {
      assert MatchAt(PhpComplexList, body, p) == PhpComplexListAt(body, p);
    }
    FindAllKeeps(PhpComplexList, body, 0, P);
  }

  /** An item's entry ends in `:CONST` or `:FUNCTION` when the item names its own type, in the statement's suffix otherwise. */
  lemma PhpGroupItemSuffix(useprefix: string, item: seq<string>, appendix: string)
    requires |item| == 2 && ItemType(item[0])
    ensures PhpGroupItem(useprefix, item, appendix) == ReplaceChar(useprefix + item[1], '\\', '/') + ItemSuffix(item[0], appendix)
  {
    TypeSuffix(item[0], appendix);
  }

  /** The suffix `PhpGroupItem` appends for an item of the captured type. */
  lemma TypeSuffix(t: string, appendix: string)
    requires ItemType(t)
    ensures (if t != "" then ":" + Upper(RStrip(t)) else appendix) == ItemSuffix(t, appendix)
  {
    if KeywordThenSpaces(t, "const") {
      ConstSuffix(t, appendix);
    } else if KeywordThenSpaces(t, "function") {
      FunctionSuffix(t, appendix);
    }
  }

  lemma ConstSuffix(t: string, appendix: string)
    requires KeywordThenSpaces(t, "const")
    ensures (if t != "" then ":" + Upper(RStrip(t)) else appendix) == ItemSuffix(t, appendix)
  {
    RStripKeyword(t, "const");
    UpperConst();
    KeywordItemSuffix(t, appendix, "const", ":CONST");
  }

  lemma FunctionSuffix(t: string, appendix: string)
    requires KeywordThenSpaces(t, "function") && !KeywordThenSpaces(t, "const")
    ensures (if t != "" then ":" + Upper(RStrip(t)) else appendix) == ItemSuffix(t, appendix)
  {
    RStripKeyword(t, "function");
    UpperFunction();
    KeywordItemSuffix(t, appendix, "function", ":FUNCTION");
  }

  /** Rewriting with `RStrip(t) == kw` and the suffix that `ItemSuffix` picks. */
  lemma KeywordItemSuffix(t: string, appendix: string, kw: string, suffix: string)
    requires |t| > 0 && RStrip(t) == kw && ItemSuffix(t, appendix) == suffix && suffix == ":" + Upper(kw)
    ensures (if t != "" then ":" + Upper(RStrip(t)) else appendix) == ItemSuffix(t, appendix)
  {
  }

  lemma UpperConst() ensures ":" + Upper("const") == ":CONST" && Upper("const") == "CONST" {}

  lemma UpperFunction() ensures ":" + Upper("function") == ":FUNCTION" && Upper("function") == "FUNCTION" {}

  /**
    A group `useprefix{...}` expands to one entry per item, in order: the
    prefix and the item with every backslash made a slash, then the suffix
    of the item's type.
   */
  lemma PhpGroupExpansion(useprefix: string, body: string, appendix: string)
    ensures var items := FindAllTuples(PhpComplexList, body);
      var es := PhpGroupItems(useprefix, items, appendix);
      |es| == |items| && forall i :: 0 <= i < |items| ==>
        es[i] == ReplaceChar(useprefix + items[i][1], '\\', '/') + ItemSuffix(items[i][0], appendix)
  {
    var items := FindAllTuples(PhpComplexList, body);
    ComplexListTypes(body);
    PhpGroupItemsIndex(useprefix, items, appendix);
    forall i | 0 <= i < |items|
      ensures PhpGroupItems(useprefix, items, appendix)[i] == ReplaceChar(useprefix + items[i][1], '\\', '/') + ItemSuffix(items[i][0], appendix)
    {
      PhpGroupItemSuffix(useprefix, items[i], appendix);
    }
  }

  /** The entries of the first `n` groups `(useprefix, body)` of one use list. */
  function PhpGroups(rx: PhpListRegexes, groupsplits: seq<seq<string>>, n: nat, appendix: string): seq<string>
    requires GroupCounts(rx) && n <= |groupsplits| && forall i :: 0 <= i < |groupsplits| ==> |groupsplits[i]| == 2
  {
    if n == 0 then []
    else
      PhpGroups(rx, groupsplits, n - 1, appendix)
      + PhpGroupItems(groupsplits[n - 1][0], FindAllTuples(rx.complexList, groupsplits[n - 1][1]), appendix)
  }

  function PhpSimpleNames(impnames: seq<string>, appendix: string): seq<string>
    decreases |impnames|
  {
    if |impnames| == 0 then []
    else PhpSimpleNames(impnames[..|impnames| - 1], appendix) + [ReplaceChar(impnames[|impnames| - 1], '\\', '/') + appendix]
  }

  /** The entries of one use list: a group use when it has a `{`, a list of names otherwise. */
  function PhpListImports(rx: PhpListRegexes, impnamelist: string, appendix: string): seq<string>
    requires GroupCounts(rx)
  {
    if '{' in impnamelist then
      var groupsplits := FindAllTuples(rx.groupSplit, impnamelist);
      PhpGroups(rx, groupsplits, |groupsplits|, appendix)
    else PhpSimpleNames(FindAllStrings(rx.simpleList, impnamelist), appendix)
  }

  /** What `extract_php_imports_line(regexfunc, line, appendix)` returns. */
  function PhpImportsLine(rx: PhpListRegexes, re: WfRegex, line: string, appendix: string): seq<string>
    requires GroupCounts(rx) && re.groups == 1
  {
    FlatMap(FindAllStrings(re, line), (l: string) => PhpListImports(rx, l, appendix))
  }

  /** The innermost loop of `extract_php_imports_line`: one entry per item of a group. */
  method AppendGroupItems(imports0: seq<string>, useprefix: string, impnames2: seq<seq<string>>, appendix: string)
    returns (imports: seq<string>)
    requires forall i :: 0 <= i < |impnames2| ==> |impnames2[i]| == 2
    ensures imports == imports0 + PhpGroupItems(useprefix, impnames2, appendix)
  {
    imports := imports0;
    for k := 0 to |impnames2|
      invariant imports == imports0 + PhpGroupItems(useprefix, impnames2[..k], appendix)
    {
      var imptype := impnames2[k][0];
      var impname := impnames2[k][1];
      var realappendix := if imptype != "" then ":" + Upper(RStrip(imptype)) else appendix;
      imports := imports + [ReplaceChar(useprefix + impname, '\\', '/') + realappendix];
      assert impnames2[..k + 1][..k] == impnames2[..k];
    }
    assert impnames2[..|impnames2|] == impnames2;
  }

  /** Group `j` of a use list: the entries of the items the complex-list regex finds in its body, after those of the groups before it. */
  method AppendGroup(rx: PhpListRegexes, imports0: seq<string>, groupsplits: seq<seq<string>>, j: nat, imports1: seq<string>, appendix: string)
    returns (imports: seq<string>)
    requires GroupCounts(rx) && j < |groupsplits| && forall i :: 0 <= i < |groupsplits| ==> |groupsplits[i]| == 2
    requires imports1 == imports0 + PhpGroups(rx, groupsplits, j, appendix)
    ensures imports == imports0 + PhpGroups(rx, groupsplits, j + 1, appendix)
  {
    var useprefix := groupsplits[j][0];
    var impnames2 := FindAllTuples(rx.complexList, groupsplits[j][1]);
    imports := AppendGroupItems(imports1, useprefix, impnames2, appendix);
    AppendAssoc(imports0, PhpGroups(rx, groupsplits, j, appendix), PhpGroupItems(useprefix, impnames2, appendix));
  }

  /** The loop over the groups `(useprefix, body)` of a use list that has a `{`. */
  method AppendGroups(rx: PhpListRegexes, imports0: seq<string>, groupsplits: seq<seq<string>>, appendix: string)
    returns (imports: seq<string>)
    requires GroupCounts(rx) && forall i :: 0 <= i < |groupsplits| ==> |groupsplits[i]| == 2
    ensures imports == imports0 + PhpGroups(rx, groupsplits, |groupsplits|, appendix)
  {
    imports := imports0;
    for j := 0 to |groupsplits|
      invariant imports == imports0 + PhpGroups(rx, groupsplits, j, appendix)
    {
      imports := AppendGroup(rx, imports0, groupsplits, j, imports, appendix);
    }
  }

  /** The loop over the names of a use list without a `{`. */
  method AppendSimpleNames(imports0: seq<string>, impnames: seq<string>, appendix: string) returns (imports: seq<string>)
    ensures imports == imports0 + PhpSimpleNames(impnames, appendix)
  {
    imports := imports0;
    for j := 0 to |impnames|
      invariant imports == imports0 + PhpSimpleNames(impnames[..j], appendix)
    {
      imports := imports + [ReplaceChar(impnames[j], '\\', '/') + appendix];
      assert impnames[..j + 1][..j] == impnames[..j];
    }
    assert impnames[..|impnames|] == impnames;
  }

  /** One use list: a group use when it has a `{`, a list of names otherwise. */
  method AppendListImports(rx: PhpListRegexes, imports0: seq<string>, impnamelist: string, appendix: string)
    returns (imports: seq<string>)
    requires GroupCounts(rx)
    ensures imports == imports0 + PhpListImports(rx, impnamelist, appendix)
  {
    if '{' in impnamelist {
      imports := AppendGroups(rx, imports0, FindAllTuples(rx.groupSplit, impnamelist), appendix);
    } else {
      imports := AppendSimpleNames(imports0, FindAllStrings(rx.simpleList, impnamelist), appendix);
    }
  }

  /** `extract_php_imports_line`: every use list found by `re`, expanded entry by entry. */
  method ExtractPhpImportsLine(rx: PhpListRegexes, re: WfRegex, line: string, appendix: string)
    returns (imports: seq<string>)
    requires GroupCounts(rx) && re.groups == 1
    ensures imports == PhpImportsLine(rx, re, line, appendix)
  {
    var impnamelists := FindAllStrings(re, line);
    var f := (l: string) => PhpListImports(rx, l, appendix);
    imports := [];
    for i := 0 to |impnamelists|
      invariant imports == FlatMap(impnamelists[..i], f)
    {
      imports := AppendListImports(rx, imports, impnamelists[i], appendix);
      FlatMapPrefixSnoc(impnamelists, i, f);
    }
    assert impnamelists[..|impnamelists|] == impnamelists;
  }

  /** The imports of one PHP line (a PHP file is read as one line): `use function`, then `use const`, then plain `use` statements. */
  function PhpLineImports(rx: ScriptRegexes, line: string): seq<string>
    requires Counted(rx)
  {
    if Contains(line, "use") then
      PhpImportsLine(rx.lists, rx.useFunction, line, ":FUNCTION") + PhpImportsLine(rx.lists, rx.useConst, line, ":CONST")
      + PhpImportsLine(rx.lists, rx.plainUse, line, "")
    else []
  }

  lemma PhpLineGuards(line: string)
    ensures PhpLineImports(Script, line) == PhpImportsLine(PhpLists, PhpUseFunction, line, ":FUNCTION")
      + PhpImportsLine(PhpLists, PhpUseConst, line, ":CONST") + PhpImportsLine(PhpLists, PhpUse, line, "")
  {
    if !Contains(line, "use") {
      MatchNeedsKeyword(PhpUseFunction, line, "use");
      MatchNeedsKeyword(PhpUseConst, line, "use");
      MatchNeedsKeyword(PhpUse, line, "use");
    }
  }

  // ---------------------------------------------------------------- Ruby

  /** The state of the Ruby line loop: inside a `=begin` block or not, and the imports so far. */
  datatype RubyScan = RubyScan(commented: bool, imports: seq<string>)

  /** One line of the Ruby loop: `=end` closes an open block, `=begin` opens one, every other line is scanned. */
  function RubyStep(rx: ScriptRegexes, st: RubyScan, line: string): RubyScan
    requires Counted(rx)
  {
    if st.commented && line == "=end" then RubyScan(false, st.imports)
    else if line == "=begin" then RubyScan(true, st.imports)
    else RubyScan(st.commented, st.imports + RubyLineImports(rx, line))
  }

  function RubyLines(rx: ScriptRegexes, lines: seq<string>): RubyScan
    requires Counted(rx)
    decreases |lines|
  {
    if |lines| == 0 then RubyScan(false, [])
    else RubyStep(rx, RubyLines(rx, lines[..|lines| - 1]), lines[|lines| - 1])
  }

  /** The Ruby loop of `extract_ruby_imports` over the lines of one file. */
  method ScanRubyLines(rx: ScriptRegexes, lines: seq<string>) returns (imports: seq<string>)
    requires Counted(rx)
    ensures imports == RubyLines(rx, lines).imports
  {
    imports := [];
    var commented := false;
    for i := 0 to |lines|
      invariant RubyLines(rx, lines[..i]) == RubyScan(commented, imports)
    {
      var line := lines[i];
      assert RubyLines(rx, lines[..i + 1]) == RubyStep(rx, RubyScan(commented, imports), line) by {
        assert lines[..i + 1][..i] == lines[..i];
      }
      if commented && line == "=end" {
        commented := false;
        continue;
      }
      if line == "=begin" {
        commented := true;
        continue;
      }
      var found := RubyLine(rx, line);
      imports := imports + found;
    }
    assert lines[..|lines|] == lines;
  }

  /** The two `require` tests of the Ruby loop, on a line that is not a block marker. */
  method RubyLine(rx: ScriptRegexes, line: string) returns (found: seq<string>)
    requires Counted(rx)
    ensures found == RubyLineImports(rx, line)
  {
    found := [];
    ghost var required := if Contains(line, "require") then FindAllStrings(rx.rubyRequire, line) else [];
    if Contains(line, "require") {
      var impnames := FindAllStrings(rx.rubyRequire, line);
      if |impnames| > 0 {
        found := found + impnames;
      } else {
        assert impnames == [];
      }
    }
    assert found == required;
    ghost var relative := if Contains(line, "require_relative") then Prefixed("./", FindAllStrings(rx.rubyRequireRelative, line)) else [];
    if Contains(line, "require_relative") {
      var impnames := FindAllStrings(rx.rubyRequireRelative, line);
      if |impnames| > 0 {
        found := found + Prefixed("./", impnames);
      } else {
        assert Prefixed("./", impnames) == [];
      }
    }
    assert found == required + relative;
  }

  /**
    The `commented` flag decides nothing: the markers themselves hold no
    `require`, and every line between `=begin` and `=end` is scanned like
    any other, so a Ruby file's imports are those of all its lines.
   */
  lemma {:induction false} RubyBlocksScanned(rx: ScriptRegexes, lines: seq<string>)
    requires Counted(rx)
    ensures RubyLines(rx, lines).imports == FlatMap(lines, (l: string) => RubyLineImports(rx, l))
    decreases |lines|
  {
    if |lines| > 0 {
      var init := lines[..|lines| - 1];
      var line := lines[|lines| - 1];
      RubyBlocksScanned(rx, init);
      if line == "=begin" || line == "=end" {
        assert !Contains(line, "require");
        assert RubyLineImports(rx, line) == [];
      }
    }
  }

  // ---------------------------------------------------------------- whole files

  /** The languages of the `extraction_functions` table. */
  datatype Language = Python | JavaScript | Java | CSharp | Php | Ruby

  /** The key of a language in the table. */
  function LanguageName(lang: Language): string {
    match lang
    case Python => "python"
    case JavaScript => "javascript"
    case Java => "java"
    case CSharp => "csharp"
    case Php => "php"
    case Ruby => "ruby"
  }

  /** Looking a name up in the table: `None` for a name it does not hold. */
  function LanguageOf(name: string): (r: Option<Language>)
    ensures r.Some? ==> LanguageName(r.value) == name
  {
    if name == "python" then Some(Python)
    else if name == "javascript" then Some(JavaScript)
    else if name == "java" then Some(Java)
    else if name == "csharp" then Some(CSharp)
    else if name == "php" then Some(Php)
    else if name == "ruby" then Some(Ruby)
    else None
  }

  /** Every language is found under its own key. */
  lemma LanguageOfName(lang: Language)
    ensures LanguageOf(LanguageName(lang)) == Some(lang)
  {
    match lang
    case Python =>
    case JavaScript =>
    case Java =>
      assert "java"[0] != "python"[0];
    case CSharp =>
      assert "csharp"[0] != "python"[0];
    case Php =>
    case Ruby =>
      assert "ruby"[0] != "java"[0];
  }

  /** The languages whose files are scanned line by line with no state. */
  predicate LineWise(lang: Language) {
    lang.JavaScript? || lang.Java? || lang.CSharp? || lang.Php?
  }

  /** The per-line rule of a line-wise language. */
  function LineRule(rx: ScriptRegexes, lang: Language, line: string): seq<string>
    requires Counted(rx) && LineWise(lang)
  {
    match lang
    case JavaScript => JsLineImports(rx, line)
    case Java => JavaLineImports(rx, line)
    case CSharp => CsLineImports(rx, line)
    case Php => PhpLineImports(rx, line)
  }

  /** The line loop of `extract_javascript_imports`, `extract_java_imports`, `extract_csharp_imports` and `extract_php_imports`. */
  method ScanLines(rx: ScriptRegexes, lang: Language, lines: seq<string>) returns (imports: seq<string>)
    requires Counted(rx) && LineWise(lang)
    ensures imports == FlatMap(lines, (l: string) => LineRule(rx, lang, l))
  {
    var f := (l: string) => LineRule(rx, lang, l);
    imports := [];
    for i := 0 to |lines|
      invariant imports == FlatMap(lines[..i], f)
    {
      var found := ScanLine(rx, lang, lines[i]);
      imports := imports + found;
      FlatMapPrefixSnoc(lines, i, f);
    }
    assert lines[..|lines|] == lines;
  }

  /** The body of the line loop: the tests and regexes of the language, on one line. */
  method ScanLine(rx: ScriptRegexes, lang: Language, line: string) returns (found: seq<string>)
    requires Counted(rx) && LineWise(lang)
    ensures found == LineRule(rx, lang, line)
  {
    match lang {
      case JavaScript => found := JsLine(rx, line);
      case Java => found := JavaLine(rx, line);
      case CSharp => found := CsLine(rx, line);
      case Php => found := PhpLine(rx, line);
    }
  }

  /** One line of `extract_javascript_imports`. */
  method JsLine(rx: ScriptRegexes, line: string) returns (found: seq<string>)
    requires Counted(rx)
    ensures found == JsLineImports(rx, line)
  {
    found := [];
    if Contains(line, "require") {
      found := found + FindAllStrings(rx.require, line);
    }
    if Contains(line, "import") {
      found := found + GetElemsIdx(FindAllTuples(rx.esImport, line), 1);
    }
  }

  /** One line of `extract_java_imports`. */
  method JavaLine(rx: ScriptRegexes, line: string) returns (found: seq<string>)
    requires Counted(rx)
    ensures found == JavaLineImports(rx, line)
  {
    found := [];
    if Contains(line, "import") {
      found := found + FindAllStrings(rx.javaImport, line);
    }
  }

  /** One line of `extract_csharp_imports`. */
  method CsLine(rx: ScriptRegexes, line: string) returns (found: seq<string>)
    requires Counted(rx)
    ensures found == CsLineImports(rx, line)
  {
    found := [];
    if Contains(line, "using") {
      found := found + FindAllStrings(rx.csUsing, line);
      found := found + FindAllStrings(rx.csUsingStatic, line);
    }
  }

  /** One line of `extract_php_imports`. */
  method PhpLine(rx: ScriptRegexes, line: string) returns (found: seq<string>)
    requires Counted(rx)
    ensures found == PhpLineImports(rx, line)
  {
    if Contains(line, "use") {
      var fs := ExtractPhpImportsLine(rx.lists, rx.useFunction, line, ":FUNCTION");
      var cs := ExtractPhpImportsLine(rx.lists, rx.useConst, line, ":CONST");
      var us := ExtractPhpImportsLine(rx.lists, rx.plainUse, line, "");
      found := fs + cs + us;
    } else {
      found := [];
    }
  }

  /** How `read_uncomment_lines` is called: a PHP file is one line, and Ruby comments are kept. */
  function ReadLines(lang: Language, text: string): (lines: seq<string>)
    ensures lang == Php ==> lines == [CommentRemover(text)]
    ensures lang == Ruby ==> lines == SplitLines(text)
    ensures lang != Php && lang != Ruby ==> lines == SplitLines(CommentRemover(text))
  {
    FileLines(text, lang != Php, lang != Ruby)
  }

  /** The imports of one file of a language read as lines. */
  function FileImports(rx: ScriptRegexes, lang: Language, lines: seq<string>): seq<string>
    requires Counted(rx) && lang != Python
  {
    if lang == Ruby then RubyLines(rx, lines).imports else FlatMap(lines, (l: string) => LineRule(rx, lang, l))
  }

  /**
    A file the language's glob matched: its path, and its text unless
    opening or reading it failed. The text is what Python's text-mode
    `read` returns: bytes that do not decode are dropped, and `\r\n` and a
    lone `\r` both arrive as `\n`.
   */
  datatype SourceFile = SourceFile(path: string, text: Option<string>)

  /** A file that gets an entry: one that could be read and, for JavaScript, is not under `node_modules`. */
  predicate Kept(lang: Language, f: SourceFile) {
    f.text.Some? && !(lang == JavaScript && Contains(f.path, "/node_modules/"))
  }

  /** The entry of a kept file: its stripped path and its imports, which `filter_pretty_imports` passes through. */
  function Entry(rx: ScriptRegexes, lang: Language, f: SourceFile): (string, seq<string>)
    requires Counted(rx) && lang != Python && f.text.Some?
  {
    (StripPathPrefix(f.path, DefaultStrip), FileImports(rx, lang, ReadLines(lang, f.text.value)))
  }

  /** The assignments `fileimports[...] = ...` the extractor makes, in folder order. */
  function FolderEntries(rx: ScriptRegexes, lang: Language, files: seq<SourceFile>): seq<(string, seq<string>)>
    requires Counted(rx) && lang != Python
    decreases |files|
  {
    if |files| == 0 then []
    else
      var f := files[|files| - 1];
      FolderEntries(rx, lang, files[..|files| - 1]) + (if Kept(lang, f) then [Entry(rx, lang, f)] else [])
  }

  /** One more file assigns its entry if it is kept and changes nothing otherwise. */
  lemma FolderStep(rx: ScriptRegexes, lang: Language, files: seq<SourceFile>, i: nat)
    requires Counted(rx) && lang != Python && i < |files|
    ensures PutAll([], FolderEntries(rx, lang, files[..i + 1])) ==
      if Kept(lang, files[i]) then
        Put(PutAll([], FolderEntries(rx, lang, files[..i])), StripPathPrefix(files[i].path, DefaultStrip),
          FileImports(rx, lang, ReadLines(lang, files[i].text.value)))
      else PutAll([], FolderEntries(rx, lang, files[..i]))
  {
    assert files[..i + 1][..i] == files[..i];
    if Kept(lang, files[i]) {
      PutAllSnoc([], FolderEntries(rx, lang, files[..i]), Entry(rx, lang, files[i]));
    } else {
      assert FolderEntries(rx, lang, files[..i + 1]) == FolderEntries(rx, lang, files[..i]);
    }
  }

  /** One extractor other than the Python one, over the files of its folder. */
  method ExtractFolder(rx: ScriptRegexes, lang: Language, files: seq<SourceFile>)
    returns (fileimports: Dict<string, seq<string>>)
    requires Counted(rx) && lang != Python
    ensures fileimports == PutAll([], FolderEntries(rx, lang, files))
  {
    fileimports := [];
    for i := 0 to |files|
      invariant fileimports == PutAll([], FolderEntries(rx, lang, files[..i]))
    {
      var f := files[i];
      FolderStep(rx, lang, files, i);
      if f.text.None? {
        continue;
      }
      var lines := ReadLines(lang, f.text.value);
      if lang == JavaScript && Contains(f.path, "/node_modules/") {
        continue;
      }
      var imports := ScanFile(rx, lang, lines);
      fileimports := Put(fileimports, StripPathPrefix(f.path, DefaultStrip), imports);
    }
    assert files[..|files|] == files;
  }

  /** The line loop of the language over one file. */
  method ScanFile(rx: ScriptRegexes, lang: Language, lines: seq<string>) returns (imports: seq<string>)
    requires Counted(rx) && lang != Python
    ensures imports == FileImports(rx, lang, lines)
  {
    if lang == Ruby {
      imports := ScanRubyLines(rx, lines);
    } else {
      imports := ScanLines(rx, lang, lines);
    }
  }

  /** Every kept file has its entry. */
  lemma {:induction false} KeptHaveEntries(rx: ScriptRegexes, lang: Language, files: seq<SourceFile>, i: nat)
    requires Counted(rx) && lang != Python && i < |files| && Kept(lang, files[i])
    ensures Entry(rx, lang, files[i]) in FolderEntries(rx, lang, files)
    decreases |files|
  {
    if i < |files| - 1 {
      KeptHaveEntries(rx, lang, files[..|files| - 1], i);
    }
  }

  /** Every entry is that of a kept file. */
  lemma {:induction false} EntriesAreKept(rx: ScriptRegexes, lang: Language, files: seq<SourceFile>, e: (string, seq<string>))
    requires Counted(rx) && lang != Python && e in FolderEntries(rx, lang, files)
    ensures exists i :: 0 <= i < |files| && Kept(lang, files[i]) && e == Entry(rx, lang, files[i])
    decreases |files|
  {
    var init := files[..|files| - 1];
    if e in FolderEntries(rx, lang, init) {
      EntriesAreKept(rx, lang, init, e);
      var i :| 0 <= i < |init| && Kept(lang, init[i]) && e == Entry(rx, lang, init[i]);
      assert files[i] == init[i];
    } else {
      assert e == Entry(rx, lang, files[|files| - 1]);
    }
  }

  /** The key of every kept file is a key of the entries. */
  lemma KeptKey(rx: ScriptRegexes, lang: Language, files: seq<SourceFile>, i: nat)
    requires Counted(rx) && lang != Python && i < |files| && Kept(lang, files[i])
    ensures StripPathPrefix(files[i].path, DefaultStrip) in Keys(FolderEntries(rx, lang, files))
  {
    var es := FolderEntries(rx, lang, files);
    KeptHaveEntries(rx, lang, files, i);
    var j :| 0 <= j < |es| && es[j] == Entry(rx, lang, files[i]);
    assert Keys(es)[j] == StripPathPrefix(files[i].path, DefaultStrip);
  }

  /** Every key of the entries is the key of a kept file. */
  lemma KeyOfKept(rx: ScriptRegexes, lang: Language, files: seq<SourceFile>, k: string)
    requires Counted(rx) && lang != Python && k in Keys(FolderEntries(rx, lang, files))
    ensures exists i :: 0 <= i < |files| && Kept(lang, files[i]) && k == StripPathPrefix(files[i].path, DefaultStrip)
  {
    var es := FolderEntries(rx, lang, files);
    var j :| 0 <= j < |es| && Keys(es)[j] == k;
    EntriesAreKept(rx, lang, files, es[j]);
  }

  /** The keys are the stripped paths of the kept files, and nothing else. */
  lemma FolderKeys(rx: ScriptRegexes, lang: Language, files: seq<SourceFile>, k: string)
    requires Counted(rx) && lang != Python
    ensures k in Keys(FolderEntries(rx, lang, files)) <==>
      exists i :: 0 <= i < |files| && Kept(lang, files[i]) && k == StripPathPrefix(files[i].path, DefaultStrip)
  {
    if k in Keys(FolderEntries(rx, lang, files)) {
      KeyOfKept(rx, lang, files, k);
    }
    if exists i :: 0 <= i < |files| && Kept(lang, files[i]) && k == StripPathPrefix(files[i].path, DefaultStrip) {
      var i :| 0 <= i < |files| && Kept(lang, files[i]) && k == StripPathPrefix(files[i].path, DefaultStrip);
      KeptKey(rx, lang, files, i);
    }
  }

  /**
    The dictionary of an extractor: each key once, a key for the stripped
    path of every kept file and for nothing else, and under it the imports
    of the last kept file with that key. A file that could not be read, and
    a JavaScript file under `node_modules`, contributes nothing.
   */
  lemma FolderResult(rx: ScriptRegexes, lang: Language, files: seq<SourceFile>, k: string)
    requires Counted(rx) && lang != Python
    ensures UniqueKeys(PutAll([], FolderEntries(rx, lang, files)))
    ensures Get(PutAll([], FolderEntries(rx, lang, files)), k).Some? <==>
      exists i :: 0 <= i < |files| && Kept(lang, files[i]) && k == StripPathPrefix(files[i].path, DefaultStrip)
    ensures k in Keys(FolderEntries(rx, lang, files)) ==>
      Get(PutAll([], FolderEntries(rx, lang, files)), k) == Some(LastValue(FolderEntries(rx, lang, files), k))
  {
    var es := FolderEntries(rx, lang, files);
    PutAllUnique([], es);
    PutAllGet([], es);
    FolderKeys(rx, lang, files, k);
  }

  // ---------------------------------------------------------------- Python

  /** A Python file the glob matched: its path, and its instructions unless reading or compiling it failed. */
  datatype CompiledFile = CompiledFile(path: string, instrs: Option<seq<Instr>>)

  /**
    The assignments of `extract_python_imports`, in folder order, or `None`
    when the fold raises on some file: that exception is not caught and
    ends the script.
   */
  function PythonEntries(files: seq<CompiledFile>): Option<seq<(string, seq<string>)>>
    decreases |files|
  {
    if |files| == 0 then Some([])
    else
      match PythonEntries(files[..|files| - 1])
      case None => None
      case Some(es) =>
        var f := files[|files| - 1];
        if f.instrs.None? then Some(es)
        else
          match Grouped(ImportInstrs(f.instrs.value))
          case None => None
          case Some(imports) => Some(es + [(StripPathPrefix(f.path, DefaultStrip), imports)])
  }

  /** How the script ends: with the dictionary of its extractor, or with an exception. */
  datatype Outcome = Done(fileimports: Dict<string, seq<string>>) | Raised

  function PythonOutcome(files: seq<CompiledFile>): Outcome {
    match PythonEntries(files)
    case None => Raised
    case Some(es) => Done(PutAll([], es))
  }

  /** Once a file has raised, the later files change nothing. */
  lemma {:induction false} RaisedStays(files: seq<CompiledFile>, i: nat)
    requires i <= |files| && PythonEntries(files[..i]).None?
    ensures PythonEntries(files).None?
    decreases |files|
  {
    if i < |files| {
      assert files[..|files| - 1][..i] == files[..i];
      RaisedStays(files[..|files| - 1], i);
    } else {
      assert files[..i] == files;
    }
  }

  lemma PythonEntriesSnoc(files: seq<CompiledFile>, i: nat)
    requires i < |files|
    ensures PythonEntries(files[..i + 1]) ==
      match PythonEntries(files[..i])
      case None => None
      case Some(es) =>
        if files[i].instrs.None? then Some(es)
        else
          match Grouped(ImportInstrs(files[i].instrs.value))
          case None => None
          case Some(imports) => Some(es + [(StripPathPrefix(files[i].path, DefaultStrip), imports)])
  {
    assert files[..i + 1][..i] == files[..i];
  }

  /** `extract_python_imports` over the files of its folder. */
  method ExtractPythonFolder(files: seq<CompiledFile>) returns (out: Outcome)
    ensures out == PythonOutcome(files)
  {
    var fileimports: Dict<string, seq<string>> := [];
    for i := 0 to |files|
      invariant PythonEntries(files[..i]).Some? && fileimports == PutAll([], PythonEntries(files[..i]).value)
    {
      var f := files[i];
      PythonEntriesSnoc(files, i);
      if f.instrs.None? {
        continue;
      }
      var importinstrs := ImportInstrs(f.instrs.value);
      var imports := FoldImports(importinstrs);
      if imports.None? {
        RaisedStays(files, i + 1);
        return Raised;
      }
      ghost var es := PythonEntries(files[..i]).value;
      fileimports := Put(fileimports, StripPathPrefix(f.path, DefaultStrip), imports.value);
      PutAllSnoc([], es, (StripPathPrefix(f.path, DefaultStrip), imports.value));
    }
    assert files[..|files|] == files;
    out := Done(fileimports);
  }

  // ---------------------------------------------------------------- dispatch

  /**
    `extraction_functions.get(language, lambda f: [])(folder)`: the
    extractor of a known language over the files its glob matched, and an
    empty result for any other name.
   */
  function Extraction(language: string, compiled: seq<CompiledFile>, sources: seq<SourceFile>): Outcome {
    match LanguageOf(language)
    case None => Done([])
    case Some(lang) =>
      if lang == Python then PythonOutcome(compiled)
      else Done(PutAll([], FolderEntries(Script, lang, sources)))
  }

  /** What the script prints: the dictionary, when the extractor returned one that is not empty. */
  function Printed(out: Outcome): Option<Dict<string, seq<string>>> {
    if out.Done? && |out.fileimports| > 0 then Some(out.fileimports) else None
  }

  /** The script: dispatch on the language name, then print a non-empty result. */
  method ExtractImports(language: string, compiled: seq<CompiledFile>, sources: seq<SourceFile>)
    returns (printed: Option<Dict<string, seq<string>>>)
    ensures printed == Printed(Extraction(language, compiled, sources))
    ensures LanguageOf(language).None? ==> printed.None?
  {
    var out: Outcome;
    var lang := LanguageOf(language);
    if lang.None? {
      out := Done([]);
    } else if lang.value == Python {
      out := ExtractPythonFolder(compiled);
    } else {
      var fileimports := ExtractFolder(Script, lang.value, sources);
      out := Done(fileimports);
    }
    if out.Done? && |out.fileimports| > 0 {
      printed := Some(out.fileimports);
    } else {
      printed := None;
    }
  }

  /** Whatever is printed holds every key once. */
  lemma PrintedUnique(language: string, compiled: seq<CompiledFile>, sources: seq<SourceFile>)
    ensures Printed(Extraction(language, compiled, sources)).Some? ==>
      UniqueKeys(Printed(Extraction(language, compiled, sources)).value)
  {
    match LanguageOf(language)
    case None =>
    case Some(lang) =>
      if lang == Python {
        if PythonEntries(compiled).Some? {
          PutAllUnique([], PythonEntries(compiled).value);
        }
      } else {
        PutAllUnique([], FolderEntries(Script, lang, sources));
      }
  }
}
