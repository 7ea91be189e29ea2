# code-compass: import extraction and dataset filtering

Code-compass suggests software libraries from the libraries a piece of code
already imports. This project models three parts of it and proves
properties of the model.

- **The editor plugin** (`plugins/vscode/src/extension.ts`, module
  `Plugin`). For the file of the active editor it computes the *context*:
  the packages or modules that file depends on. A `.java` file gives the
  packages of its `import` statements, which a mapping service turns into
  modules. A `.js` file gives its `require(...)` and ES `import ... from`
  modules. A `.py` file gives the top-level names of its `import` and
  `from ... import` statements. A `pom.xml` gives `groupId:artifactId`
  coordinates, a `package.json` the keys of its `dependencies` and a
  `requirements.txt` the word that starts each line. The class
  `Plugin.Extension` holds the plugin's state: the editor it reads from,
  the language tag sent with each request, the context last received,
  and the cache from suggested modules to the raw modules they stand for.
- **The corpus extractor** (`scripts/extract_imports.py`, modules
  `Comments`, `PyImports` and `Corpus`). For one project and one language
  it maps every source file to its import entries. The key is the file's
  path without its first four segments. Python entries come from the
  compiler's `IMPORT_*` instructions. Entries for JavaScript, Java, C#, PHP
  and Ruby come from regular expressions, applied line by line after C-style
  comments are removed.
- **The dataset filter** (`scripts/filter_import_dataset.py`, module
  `Dataset`). It drops files without imports and projects without files.
  It then drops any project whose *import hash* is already on record. The
  import hash is the md5 of the sorted import lists. The record is kept
  across batches in `Dataset.DedupIndex`.

The regular expressions are modelled as hand-written recognisers in
`Patterns`. Each one says where a match starts and ends and what its
groups capture. One scanner, `Patterns.Exec` and `Patterns.FindAll`, plays
the part of both JavaScript's `RegExp.exec` loop and Python's `findall`.
The helper modules `Text`, `Ordered` and `Dicts` hold the string
operations, the push-if-absent idiom (`imps.indexOf(x) === -1`) and
insertion-ordered dictionaries as association lists.

The model follows the code in two places where it may not do what was
intended:
- `refhashes.update(projecthash)` adds the hash's characters to the set,
  not the hash. So two projects with equal hashes in one batch are both kept
  (`Dataset.DedupKeepsTwins`).
- The Ruby loop's `commented` flag is set and cleared but never read by
  the `require` tests. So lines inside `=begin`/`=end` blocks are scanned
  like any other (`Corpus.RubyBlocksScanned`).

## Model

| member | source | states |
|---|---|---|
| Plugin.GetFileExtension | plugins/vscode/src/extension.ts:398-400 | the extension is a suffix of the lowercased name; with a `.` in the name it starts at the last `.` and holds no other; without one it is the whole lowercased name |
| Plugin.ExtensionOfDottedSuffix | plugins/vscode/src/extension.ts:398-400 | a lowercased name ending in `.x`, where `x` has no dot, has extension `.x` |
| Plugin.SupportedAreDottedSuffixes | plugins/vscode/src/extension.ts:21 | (helper) every supported file type is a `.` followed by dot-free text |
| Plugin.SupportedFileName | plugins/vscode/src/extension.ts:402-405 | a file name is supported exactly when its lowercased form ends with one of the six supported types |
| Plugin.LowerDots | plugins/vscode/src/extension.ts:399 | lowercasing keeps the positions of the dots, so the index taken on the original name is valid in the lowercased one |
| Plugin.PackageOf | plugins/vscode/src/extension.ts:474 | the package of an import path is the text before its last `.`, or empty when the path has no `.` |
| Plugin.PackageOfSplit | plugins/vscode/src/extension.ts:474 | a dotted path is its package, a `.` and the dot-free last name |
| Plugin.Packages | plugins/vscode/src/extension.ts:472-477 | one package per import path, in order |
| Plugin.PackagesMembers | plugins/vscode/src/extension.ts:472-477 | the packages are exactly the packages of the captured paths |
| Plugin.JavaPackagesProperties | plugins/vscode/src/extension.ts:460-488 | `parseJava` returns each package once; a package is returned exactly when some import path has it; packages come in order of first import; the result is empty exactly when no line matches |
| Plugin.Extension.ParseJava | plugins/vscode/src/extension.ts:460-488 | the loop returns the Java packages and sets the language to `java` |
| Plugin.Extension.ImportedPackages | plugins/vscode/src/extension.ts:467-482 | the `exec` loop collects the package of every match once, in first-seen order |
| Plugin.AcceptedOnlyMembers | plugins/vscode/src/extension.ts:494-505 | a group is kept exactly when its first character is in `acceptedFirstCharacter` |
| Plugin.AcceptedOnlyAppend | plugins/vscode/src/extension.ts:503-505 | the first-character filter of a concatenation is the concatenation of the filters |
| Plugin.GroupsMembers | plugins/vscode/src/extension.ts:503 | the groups visited by `m.forEach` are exactly those of the matches, in either direction |
| Plugin.GroupsContain | plugins/vscode/src/extension.ts:503 | every group of every match is visited |
| Plugin.GroupsFrom | plugins/vscode/src/extension.ts:503 | every visited group belongs to some match |
| Plugin.JsModulesProperties | plugins/vscode/src/extension.ts:491-513 | `parseJavaScript` returns accepted modules, each once; the `require` modules come first, in order; every later module comes from an ES import and is no required module |
| Plugin.EsImportGroupsAreEntries | plugins/vscode/src/extension.ts:493 | any accepted group of an ES import match is returned, including the binding character that the first group captures |
| Plugin.Extension.ScanAccepted | plugins/vscode/src/extension.ts:499-510 | one regex's `exec` loop appends its accepted groups that are not there yet |
| Plugin.Extension.AddAccepted | plugins/vscode/src/extension.ts:503-508 | the `forEach` over one match appends its accepted groups that are not there yet |
| Plugin.Extension.ParseJavaScript | plugins/vscode/src/extension.ts:491-513 | both loops return the JavaScript modules and set the language to `js` |
| Plugin.FirstSegment | plugins/vscode/src/extension.ts:530 | `split('.')[0]` is the dot-free prefix that ends at the first `.` or at the end |
| Plugin.ClauseModules | plugins/vscode/src/extension.ts:528-530 | each comma-separated clause gives the first segment of its trimmed text |
| Plugin.Clauses | plugins/vscode/src/extension.ts:526-527 | splitting on `,` gives at least one clause |
| Plugin.FromEntries | plugins/vscode/src/extension.ts:544-556 | each `from` match gives the first segment of its module |
| Plugin.PyModulesProperties | plugins/vscode/src/extension.ts:515-561 | `parsePython` returns dot-free names, each once; the `import` names come first; every later name comes from a `from` statement and is no `import` name |
| Plugin.PyEntriesNoDot | plugins/vscode/src/extension.ts:528-555 | the distinct entries of both loops hold no duplicate and no `.` |
| Plugin.ImportEntriesNoDot | plugins/vscode/src/extension.ts:528-533 | no entry of an `import` line holds a `.` |
| Plugin.RelativeFromIsEmpty | plugins/vscode/src/extension.ts:538-552 | a relative `from .x import y` gives the empty name |
| Plugin.ImportAsDropsRest | plugins/vscode/src/extension.ts:526-527 | (example) `import a as x, b` gives only `a`, since the text after ` as ` is dropped |
| Plugin.Extension.ParsePython | plugins/vscode/src/extension.ts:515-561 | both loops return the Python modules and set the language to `python` |
| Plugin.Extension.AddClauseModules | plugins/vscode/src/extension.ts:528-534 | appends the module of each clause that is not there yet |
| Plugin.Extension.AddFromModule | plugins/vscode/src/extension.ts:550-556 | appends the `from` module once when the statement names at least one item, and nothing otherwise |
| Plugin.LineStartWordsSkip | plugins/vscode/src/extension.ts:601-613 | positions where the requirement regex does not match add nothing |
| Plugin.RequirementsAreLineStartWords | plugins/vscode/src/extension.ts:601-613 | the `exec` loop captures exactly the word that starts each line with a word character |
| Plugin.RequirementInterior | plugins/vscode/src/extension.ts:601 | no line starts strictly inside a requirement match, so consecutive matches never overlap a line start |
| Plugin.RequirementsProperties | plugins/vscode/src/extension.ts:598-620 | `parseRequirementsTxt` returns the line-start words of the text, in order |
| Plugin.Extension.ParseRequirementsTxt | plugins/vscode/src/extension.ts:598-620 | returns the requirements and sets the language to `python` |
| Plugin.Extension.FirstGroups | plugins/vscode/src/extension.ts:603-613 | the `exec` loop pushes group 1 of every match, in order |
| Plugin.Coordinates | plugins/vscode/src/extension.ts:571-576 | one `groupId:artifactId` per dependency, in order |
| Plugin.CoordinateSplit | plugins/vscode/src/extension.ts:573 | a coordinate whose group id has no `:` splits back to that group id |
| Plugin.CoordinatesSnoc | plugins/vscode/src/extension.ts:572-576 | a dependency pushed last gives its coordinate last |
| Plugin.Extension.ParsePomXml | plugins/vscode/src/extension.ts:563-580 | a POM that does not parse gives no coordinates; one that parses gives its dependencies' coordinates; the language becomes `java` in both cases |
| Plugin.Extension.ParsePackageJson | plugins/vscode/src/extension.ts:582-596 | a JSON error leaves the language unchanged and gives nothing; otherwise the language becomes `js` and the result is the dependency keys, or nothing when there is no `dependencies` |
| Plugin.RawForMembers | plugins/vscode/src/extension.ts:337 | a raw module is cached under `mod` exactly when it is `mod` or starts with `mod:` |
| Plugin.RawForAppend | plugins/vscode/src/extension.ts:337 | the raw filter of a concatenation is the concatenation of the filters |
| Plugin.Extension.FillSuggestCache | plugins/vscode/src/extension.ts:336-337 | the cache is replaced by one entry per filtered module with its raw modules; nothing else changes |
| Plugin.NormalizeIntent | plugins/vscode/src/extension.ts:324 | each space becomes `_` and every other character is lowercased, position by position |
| Plugin.NormalizeIntentProperties | plugins/vscode/src/extension.ts:324 | a normalised intent has no space and no upper-case ASCII letter, and normalising it again changes nothing |
| Plugin.ChosenEditor | plugins/vscode/src/extension.ts:415-424 | the remembered editor when its file type is supported; with none remembered, the active editor when supported; the first visible editor in every other case |
| Plugin.Extension.PickEditor | plugins/vscode/src/extension.ts:415-424 | remembers the chosen editor and changes nothing else |
| Plugin.Extension.ContextOf | plugins/vscode/src/extension.ts:433-457 | the `switch` sends the context of the file kind with the resulting language; a kind without a parser sends nothing with the language unchanged |
| Plugin.Extension.GetActiveContext | plugins/vscode/src/extension.ts:408-458 | with no visible editor it replies `no_editor` and changes nothing; otherwise it remembers the chosen editor and replies `unsupported` for an unsupported file, or the context of the text its document holds at the time of the call |
| Plugin.Extension.OnGetContext | plugins/vscode/src/extension.ts:249-252 | the reply becomes the context and the language, so after `no_editor` or `unsupported` the language is that tag; the reply is `getActiveContext`'s, computed from the chosen document's current text |
| Plugin.Extension.OnDidChangeActiveTextEditor | plugins/vscode/src/extension.ts:118-122 | the new editor is remembered and the context is fetched again: from its current text when its file kind is supported, otherwise from the first visible editor; the reply becomes the context and the language |
| Plugin.Extension.SetLanguage | plugins/vscode/src/extension.ts:393-396 | sets the language and nothing else |
| Plugin.Extension.constructor | plugins/vscode/src/extension.ts:41-45 | starts from the launching editor (its identity and file name; its text is read on each request), the language `java`, an empty cache and an empty context |
| Patterns.PluginJavaImportAt | plugins/vscode/src/extension.ts:462 | a match starts a line and ends at a `;`, and its group is a non-empty run without `;` or white space |
| Patterns.RequireAt | plugins/vscode/src/extension.ts:493 | a match is `require(`, a quote, a non-empty quote-free group, a quote and `)` |
| Patterns.EsImportAt | plugins/vscode/src/extension.ts:493 | a match starts with `import`, its first group is one character and its second a non-empty quote-free module that ends just before the closing quote |
| Patterns.EsImportBounds | plugins/vscode/src/extension.ts:493 | the positions of the module found after `import`, the body and ` from ` lie in order inside the text, with a quote after the module |
| Patterns.FromClause | plugins/vscode/src/extension.ts:493 | ` from ` followed by a quoted, quote-free, non-empty module |
| Patterns.BodyStop | plugins/vscode/src/extension.ts:493 | the body `((?!\s+from).)+` stops at the first character that is a line terminator or starts white space followed by `from` |
| Patterns.PluginPythonImportAt | plugins/vscode/src/extension.ts:517 | a match starts a line and its group is the non-empty rest of that line |
| Patterns.PluginPythonFromAt | plugins/vscode/src/extension.ts:538 | a match starts a line, its module is a non-empty run of word characters and dots, and its item text is non-empty |
| Patterns.PluginRequirementAt | plugins/vscode/src/extension.ts:601 | a match exists exactly at a line start followed by a word character; its group is the whole word and it may take one comparison character after it |
| Patterns.JavaImportAt | scripts/extract_imports.py:149 | a match is followed by `;` and its group is a non-empty run without `;` or white space; the line holds `import` |
| Patterns.CsUsingAt | scripts/extract_imports.py:174 | as for Java with `using`, and a `using static` statement never matches |
| Patterns.CsUsingStaticAt | scripts/extract_imports.py:175 | a match is a `using static` statement followed by `;` |
| Patterns.UseList | scripts/extract_imports.py:199-201 | the use list is non-empty, holds no `;` and ends just before a `;` |
| Patterns.PhpUseKeywordAt | scripts/extract_imports.py:199-200 | `use function` and `use const` give a non-empty list without `;`, followed by `;` |
| Patterns.PhpUseAt | scripts/extract_imports.py:201 | a plain `use` gives a non-empty list without `;`, followed by `;` |
| Patterns.PhpSimpleListAt | scripts/extract_imports.py:197 | a match starts exactly at a name character and its group is the whole name |
| Patterns.PhpGroupSplitAt | scripts/extract_imports.py:203 | a match starts the text; its prefix has no `{` or white space, and its body is non-empty, has no `}` and is closed by `}` |
| Patterns.Longest | scripts/extract_imports.py:198 | the greedy choice: the largest end in range that passes the test, or none when none passes |
| Patterns.ComplexItem | scripts/extract_imports.py:198 | an item ends at the next `,` or at the end; its type is the text before the name, and the name is a non-empty run of name characters |
| Patterns.TypedItem | scripts/extract_imports.py:198 | a `const` or `function` alternative captures the keyword and the blanks after it |
| Patterns.PhpComplexListAt | scripts/extract_imports.py:198 | an item ends at `,` or at the end, its name is non-empty, and its type is empty or `const`/`function` followed by blanks |
| Patterns.RubyRequireAt | scripts/extract_imports.py:248-249 | a match starts with the keyword and its group is a non-empty, quote-free name |
| Patterns.Skip | scripts/extract_imports.py:149 | a greedy run: every character kept, and the next one not |
| Patterns.LastKept | scripts/extract_imports.py:149 | the last position in a range whose character passes, or none |
| Patterns.LeadIn | scripts/extract_imports.py:149 | `(?:^\|;)` consumes a `;`, or nothing at the start of the text |
| Patterns.KeywordStatement | scripts/extract_imports.py:149 | a statement keyword found after the lead-in and white space |
| Patterns.PathBeforeSemicolon | scripts/extract_imports.py:149 | `([^;\s]+)\s*(?=;)` captures a non-empty path that, after white space, is followed by `;` |
| Patterns.MatchAt | scripts/extract_imports.py:160 | a match at a position ends after it, inside the text, with the regex's number of groups |
| Patterns.Exec | plugins/vscode/src/extension.ts:467 | `exec` finds the leftmost match from the last index, and none exists when it finds nothing |
| Patterns.FindAll | scripts/extract_imports.py:160 | the non-overlapping leftmost matches, empty exactly when there is none |
| Patterns.FindAllKeeps | scripts/extract_imports.py:160 | a property of every match at every position holds of every match found |
| Patterns.Column | scripts/extract_imports.py:135 | one group per match, in order |
| Patterns.ColumnExec | scripts/extract_imports.py:160 | the captured groups are those of the first match followed by those found after it |
| Patterns.FindAllTuples | scripts/extract_imports.py:214 | every tuple has one component per group |
| Comments.LiteralRest | scripts/extract_imports.py:31 | a literal ends after a closing quote that is inside the text |
| Comments.LiteralRestBody | scripts/extract_imports.py:31 | a literal's body is escape pairs and characters other than the quote and the backslash |
| Comments.TokenEnd | scripts/extract_imports.py:31 | a token of the pattern ends after its start |
| Comments.Step | scripts/extract_imports.py:31-34 | each step of `re.sub` consumes at least one character |
| Comments.PiecesFromStep | scripts/extract_imports.py:31-34 | the pieces are the first piece and the pieces after it; a comment piece starts with `/` |
| Comments.StepShaped | scripts/extract_imports.py:31 | the piece at a position is a line comment, a block comment, a literal or one character |
| Comments.PiecesShaped | scripts/extract_imports.py:31 | every piece has the shape of its kind |
| Comments.PiecesCover | scripts/extract_imports.py:23-34 | the pieces, in order, give back the text |
| Comments.NoSlashUnchanged | scripts/extract_imports.py:24-29 | text without `/` has no comment, so nothing is replaced |
| Comments.LineCommentShaped | scripts/extract_imports.py:31 | `//.*?$` holds no `\n` and stops at the first `\n` or at the end of the text |
| Comments.BlockCommentShaped | scripts/extract_imports.py:31 | `/\*.*?\*/` runs to the first `*/` |
| Comments.LiteralShaped | scripts/extract_imports.py:31 | a quoted literal is a quote, an escaped body and the same quote |
| Comments.CommentRemoverProperties | scripts/extract_imports.py:23-34 | the pieces cover the text and each is shaped, and text without `/` is returned unchanged |
| Comments.LiteralRestComplete | scripts/extract_imports.py:31 | an escaped body closed by its quote is exactly what the literal scan finds |
| Comments.LineCommentEnd | scripts/extract_imports.py:31 | a line comment that stops at a `\n` or the end is the one `//.*?$` matches |
| Comments.BlockCommentEnd | scripts/extract_imports.py:31 | a block comment without an inner `*/` is the one `/\*.*?\*/` matches |
| Comments.LiteralEnd | scripts/extract_imports.py:31 | a quoted literal is the one the literal alternatives match |
| Comments.TokenAtEnd | scripts/extract_imports.py:31 | every text that an alternative of the pattern matches at a position is the match the scan finds there |
| Comments.TokenEndSound | scripts/extract_imports.py:31 | what the scan finds is a line comment, a block comment or a literal |
| Comments.TokenEndIff | scripts/extract_imports.py:31 | the scan finds nothing exactly when no alternative matches at the position, and finds a match exactly when an alternative matches it |
| Comments.PiecesLex | scripts/extract_imports.py:23-34 | the pieces are a walk of `re.sub`: a match wherever one starts, and a copied character only where none starts |
| Comments.LexesHead | scripts/extract_imports.py:33 | every such walk starts with the piece the scan finds |
| Comments.LexesUnique | scripts/extract_imports.py:33 | there is only one such walk of a text |
| Comments.CommentRemoverSpec | scripts/extract_imports.py:23-34 | for the walk of the text, the result is every comment replaced by one space and every literal and other character copied, and the walk covers the text |
| Comments.LineCommentExample | scripts/extract_imports.py:26-27 | (example) a line comment becomes one space and the newline after it stays |
| Comments.LiteralExample | scripts/extract_imports.py:28-29 | (example) comment markers inside a string literal are kept |
| Comments.SplitLinesNoBoundary | scripts/extract_imports.py:46 | no line from `splitlines` holds a line-boundary character |
| Comments.SplitLinesTerminated | scripts/extract_imports.py:46 | splitting lines joined with `\n` terminators gives them back |
| Comments.FileLines | scripts/extract_imports.py:40-52 | an unsplit file is one line, with or without its comments removed; a split file is the `splitlines` of its text, or of the text with its comments removed |
| PyImports.ImportInstrs | scripts/extract_imports.py:83 | keeps exactly the instructions whose opname contains `IMPORT` |
| PyImports.ImportInstrsAppend | scripts/extract_imports.py:83 | the filter keeps order: the filter of a concatenation is the concatenation of the filters |
| PyImports.ImportInstrsSingle | scripts/extract_imports.py:83 | one instruction is kept once when its opname contains `IMPORT`, and dropped otherwise |
| PyImports.LeadingFollowers | scripts/extract_imports.py:88-102 | the count of leading instructions that are not IMPORT_NAME is at most the length |
| PyImports.LeadingFollowersSpec | scripts/extract_imports.py:88-102 | those leading instructions are not IMPORT_NAME, and the next one is |
| PyImports.LeadingFollowersIs | scripts/extract_imports.py:88-102 | the count is the only position with that property |
| PyImports.Followed | scripts/extract_imports.py:97-102 | one entry per follower |
| PyImports.FollowedEntries | scripts/extract_imports.py:97-102 | the entries, in follower order, are the name, `:` and each follower's item |
| PyImports.LastNameOfGroup | scripts/extract_imports.py:90 | within one group the last imported name is the group's own |
| PyImports.LastNameAppend | scripts/extract_imports.py:90 | after a later IMPORT_NAME the last name is that one's |
| PyImports.GroupedStartsWithName | scripts/extract_imports.py:85-104 | a list that starts with IMPORT_NAME never raises and gives an entry |
| PyImports.GroupedUnfold | scripts/extract_imports.py:85-104 | a name with its followers gives that group's entries, then those of the rest |
| PyImports.GroupedSingle | scripts/extract_imports.py:89-92 | one IMPORT_NAME gives its name |
| PyImports.GroupedOneGroup | scripts/extract_imports.py:85-104 | a single group gives its own entries |
| PyImports.GroupedSnoc | scripts/extract_imports.py:88-104 | one more instruction extends the entries as one step of the loop does: a name is appended; a follower replaces the name the first time and is appended after it |
| PyImports.FoldIsGrouped | scripts/extract_imports.py:85-104 | the loop raises exactly when the grouped reading does, and otherwise gives the same entries |
| PyImports.FoldMatchesAll | scripts/extract_imports.py:85-104 | after every prefix the loop state is the grouped reading's |
| PyImports.FoldRaised | scripts/extract_imports.py:95-100 | once `imports.pop()` on an empty list has raised, the whole file raises |
| PyImports.FoldImports | scripts/extract_imports.py:85-104 | the loop with `lastimp` and `popped` gives the grouped entries, or raises |
| PyImports.GroupedNamesOnly | scripts/extract_imports.py:89-92 | plain `import` instructions give their names, in order |
| Corpus.StripPathPrefixProperties | scripts/extract_imports.py:64-65 | stripping nothing keeps the path; stripping all segments gives empty; otherwise the dropped segments, a `/` and the result give the path back |
| Corpus.ElemsIdxIsColumn | scripts/extract_imports.py:135 | projecting the `findall` tuples on a group gives that group of every match |
| Corpus.MatchNeedsKeyword | scripts/extract_imports.py:129-134 | a regex whose matches need a keyword finds nothing in a line without it, so the `in line` tests lose nothing |
| Corpus.PrefixedProperties | scripts/extract_imports.py:273 | every name gets the prefix, and taking the prefix off gives the name back |
| Corpus.JsLineGuards | scripts/extract_imports.py:128-137 | a JavaScript line gives its `require` modules, then the module of every ES import |
| Corpus.JavaLineGuards | scripts/extract_imports.py:158-162 | a Java line gives every captured import path |
| Corpus.CsLineGuards | scripts/extract_imports.py:184-189 | a C# line gives its plain `using` names, then its `using static` names |
| Corpus.RubyLineGuards | scripts/extract_imports.py:266-273 | a Ruby line gives its `require` names, then its `require_relative` names with `./` |
| Corpus.PhpLineGuards | scripts/extract_imports.py:232-236 | a PHP text gives its `use function`, then `use const`, then plain `use` entries |
| Corpus.PhpGroupItemsIndex | scripts/extract_imports.py:216-218 | one entry per group item, in item order |
| Corpus.RStripKeyword | scripts/extract_imports.py:217 | stripping the blanks after `const` or `function` gives the keyword |
| Corpus.ComplexListTypes | scripts/extract_imports.py:198 | every item type captured is empty or a keyword followed by blanks |
| Corpus.PhpGroupItemSuffix | scripts/extract_imports.py:217-218 | an item's entry is its prefixed name with `/` for `\`, ending in `:CONST` or `:FUNCTION` when the item names its type and in the statement's suffix otherwise |
| Corpus.TypeSuffix | scripts/extract_imports.py:217 | the suffix computed from the type is the one its keyword calls for |
| Corpus.ConstSuffix | scripts/extract_imports.py:217 | a `const` type gives `:CONST` |
| Corpus.FunctionSuffix | scripts/extract_imports.py:217 | a `function` type gives `:FUNCTION` |
| Corpus.KeywordItemSuffix | scripts/extract_imports.py:217 | a type whose stripped keyword's suffix is chosen gives that suffix |
| Corpus.PhpGroupExpansion | scripts/extract_imports.py:211-218 | a group use gives, per item, its prefixed name with `/` for `\` and its suffix |
| Corpus.AppendGroupItems | scripts/extract_imports.py:216-218 | the innermost loop appends the entries of the group's items |
| Corpus.AppendGroup | scripts/extract_imports.py:212-218 | one more group extends the entries with that group's items |
| Corpus.AppendGroups | scripts/extract_imports.py:212-218 | the loop over groups appends the entries of all groups |
| Corpus.AppendSimpleNames | scripts/extract_imports.py:220-222 | a list without `{` appends each name with `/` for `\` and the statement's suffix |
| Corpus.AppendListImports | scripts/extract_imports.py:211-222 | a use list is expanded as a group use when it holds `{`, as a list of names otherwise |
| Corpus.ExtractPhpImportsLine | scripts/extract_imports.py:207-223 | every use list found is expanded entry by entry, in order |
| Corpus.ScanRubyLines | scripts/extract_imports.py:258-273 | the Ruby loop gives the imports of the `=begin`/`=end` scan |
| Corpus.RubyLine | scripts/extract_imports.py:266-273 | the two `require` tests of a line give its Ruby imports |
| Corpus.RubyBlocksScanned | scripts/extract_imports.py:258-273 | the `commented` flag never hides a line: the file's imports are those of every line in order, including lines inside `=begin`/`=end` blocks |
| Corpus.LanguageOf | scripts/extract_imports.py:283-290 | a name found in the table is that language's key |
| Corpus.LanguageOfName | scripts/extract_imports.py:283-290 | every language is found under its own key |
| Corpus.ScanLines | scripts/extract_imports.py:128-137 | the line loop of a line-wise language gives the imports of every line, in order |
| Corpus.ScanLine | scripts/extract_imports.py:158-162 | the loop body applies the tests and regexes of the language |
| Corpus.JsLine | scripts/extract_imports.py:129-137 | one JavaScript line gives its imports |
| Corpus.JavaLine | scripts/extract_imports.py:159-162 | one Java line gives its imports |
| Corpus.CsLine | scripts/extract_imports.py:185-189 | one C# line gives its imports |
| Corpus.PhpLine | scripts/extract_imports.py:233-236 | one PHP text gives its imports |
| Corpus.ReadLines | scripts/extract_imports.py:119-253 | a PHP file is one comment-free line, a Ruby file is split with its comments kept, and the other languages are split after their comments are removed |
| Corpus.ScanFile | scripts/extract_imports.py:126-140 | the imports of one file, by its language's loop |
| Corpus.FolderStep | scripts/extract_imports.py:140 | one more file adds its stripped key and imports when it is kept, and nothing otherwise |
| Corpus.ExtractFolder | scripts/extract_imports.py:117-142 | the extractor assigns the entry of every kept file, in folder order |
| Corpus.KeptHaveEntries | scripts/extract_imports.py:123-124 | every kept file gets an entry |
| Corpus.EntriesAreKept | scripts/extract_imports.py:123-124 | every entry is that of a kept file, so no file under `node_modules` is listed |
| Corpus.KeptKey | scripts/extract_imports.py:140 | a kept file's stripped path is a key |
| Corpus.KeyOfKept | scripts/extract_imports.py:140 | every key is the stripped path of a kept file |
| Corpus.FolderKeys | scripts/extract_imports.py:140 | a key is in the result exactly when it is the stripped path of a kept file |
| Corpus.FolderResult | scripts/extract_imports.py:117-142 | the dictionary has unique keys, holds exactly the stripped paths of kept files, and maps each to the imports of its last file |
| Corpus.RaisedStays | scripts/extract_imports.py:85-106 | once a file has raised, the extractor raises |
| Corpus.PythonEntriesSnoc | scripts/extract_imports.py:74-106 | one more file is skipped when it did not compile, raises the whole run when its fold raises, and adds its entry otherwise |
| Corpus.ExtractPythonFolder | scripts/extract_imports.py:71-107 | the Python extractor gives the folder's entries, or raises |
| Corpus.ExtractImports | scripts/extract_imports.py:293-300 | prints the extractor's dictionary when it is not empty; an unknown language name prints nothing |
| Corpus.PrintedUnique | scripts/extract_imports.py:298-300 | whatever is printed holds every key once |
| Dataset.StrLeTotal | scripts/filter_import_dataset.py:40 | string order is total |
| Dataset.StrLeAntisymmetric | scripts/filter_import_dataset.py:40 | string order is antisymmetric |
| Dataset.StrLeTransitive | scripts/filter_import_dataset.py:40 | string order is transitive |
| Dataset.InsertMultiset | scripts/filter_import_dataset.py:40 | insertion adds exactly one element |
| Dataset.InsertSorted | scripts/filter_import_dataset.py:40 | insertion keeps a list sorted |
| Dataset.SortedCons | scripts/filter_import_dataset.py:40 | a least element in front of a sorted list keeps it sorted |
| Dataset.SortProperties | scripts/filter_import_dataset.py:40 | `sorted` gives a sorted permutation |
| Dataset.SortedHead | scripts/filter_import_dataset.py:40 | the head of a sorted list is at most each of its elements |
| Dataset.SortedTail | scripts/filter_import_dataset.py:40 | the tail of a sorted list is sorted |
| Dataset.MultisetTail | scripts/filter_import_dataset.py:40 | the tail's elements are those of the list less its head |
| Dataset.SortedUnique | scripts/filter_import_dataset.py:40 | two sorted lists with the same elements are equal |
| Dataset.SameLength | scripts/filter_import_dataset.py:40 | lists with the same elements have the same length |
| Dataset.SameHead | scripts/filter_import_dataset.py:40 | sorted lists with the same elements have the same head and tail elements |
| Dataset.ConsEqual | scripts/filter_import_dataset.py:40 | lists with equal heads and equal tails are equal |
| Dataset.SortPermutation | scripts/filter_import_dataset.py:40 | sorting a permutation gives the same list |
| Dataset.MapSeqRemove | scripts/filter_import_dataset.py:40 | removing one element removes its image |
| Dataset.MapSeqHead | scripts/filter_import_dataset.py:40 | the images are the head's and the tail's |
| Dataset.MapSeqMultiset | scripts/filter_import_dataset.py:40 | mapping a permutation gives a permutation |
| Dataset.HashInputImportsPermuted | scripts/filter_import_dataset.py:39-43 | the hash does not depend on the order of the imports within a file |
| Dataset.HashInputFilesPermuted | scripts/filter_import_dataset.py:39-43 | the hash does not depend on the order of the files |
| Dataset.FilterFiles | scripts/filter_import_dataset.py:71 | the file filter keeps every project |
| Dataset.KeepFilesMembers | scripts/filter_import_dataset.py:71 | a file is kept exactly when it has at least the minimum of imports |
| Dataset.KeepProjectsMembers | scripts/filter_import_dataset.py:74 | a project is kept exactly when it has at least the minimum of files |
| Dataset.PreparedMembers | scripts/filter_import_dataset.py:71-74 | after both filters a project is there, with its own files that have an import, exactly when it had such a file |
| Dataset.HashChars | scripts/filter_import_dataset.py:53 | `set.update` with a string adds only one-character strings |
| Dataset.HashPairsKeys | scripts/filter_import_dataset.py:52 | the recorded pairs have the projects' keys in order, and each key maps to the hash of that project's files |
| Dataset.DedupIndex.constructor | scripts/filter_import_dataset.py:60 | the record of hashes starts empty |
| Dataset.DedupIndex.DedupProjects | scripts/filter_import_dataset.py:45-56 | `dedup_projects` returns the projects it keeps and updates the record in place |
| Dataset.DedupStepFresh | scripts/filter_import_dataset.py:49-54 | a project whose hash is on record is skipped; otherwise it is kept and its hash recorded, and the set grows only by one-character strings |
| Dataset.DedupRunRefs | scripts/filter_import_dataset.py:47-54 | the reference set only grows, and only by one-character strings |
| Dataset.HashPairsSnoc | scripts/filter_import_dataset.py:52 | one more project adds its pair last |
| Dataset.DedupRunFresh | scripts/filter_import_dataset.py:49-54 | the loop keeps the projects whose hash is not on record and records their hashes |
| Dataset.PutAllDistinct | scripts/filter_import_dataset.py:54 | assigning pairs with unique keys into an empty dictionary gives those pairs |
| Dataset.FreshMembers | scripts/filter_import_dataset.py:51 | a project is fresh exactly when its hash is not on record |
| Dataset.FreshKeys | scripts/filter_import_dataset.py:54 | the fresh projects are input projects |
| Dataset.FreshUnique | scripts/filter_import_dataset.py:54 | the fresh projects have unique names |
| Dataset.DedupSpec | scripts/filter_import_dataset.py:45-56 | the kept projects are, in input order, those whose hash was not on record at the start; the record gains their hashes |
| Dataset.DedupMembers | scripts/filter_import_dataset.py:47-51 | a project is kept exactly when its hash was not on record |
| Dataset.DedupRecords | scripts/filter_import_dataset.py:52 | every kept project's hash is on record afterwards |
| Dataset.DedupKeepsTwins | scripts/filter_import_dataset.py:47-53 | two projects of one batch with the same new hash are both kept |
| Dataset.DedupRunShrinks | scripts/filter_import_dataset.py:49-54 | the loop keeps at most the projects it is given |
| Dataset.FilterDataset | scripts/filter_import_dataset.py:60-85 | the batch loop gives the driver's processed batches and counts |
| Dataset.DriverCounts | scripts/filter_import_dataset.py:76-80 | the deduplicated count never exceeds the raw count, and there is one processed batch per input batch |
| Ordered.FirstIndex | plugins/vscode/src/extension.ts:475 | the position of the first occurrence |
| Ordered.AppendAbsentConcat | plugins/vscode/src/extension.ts:497-511 | pushing two lists if absent is pushing one after the other |
| Ordered.AppendAbsentSnoc | plugins/vscode/src/extension.ts:475-476 | one more element is pushed when absent |
| Ordered.AppendAbsentPrefix | plugins/vscode/src/extension.ts:475-476 | pushing if absent keeps what was there |
| Ordered.AppendAbsentMembers | plugins/vscode/src/extension.ts:475-476 | the result holds exactly what was there and what was pushed |
| Ordered.AppendAbsentNoDuplicates | plugins/vscode/src/extension.ts:475-476 | pushing if absent keeps a list free of duplicates |
| Ordered.AppendAbsentNew | plugins/vscode/src/extension.ts:475-476 | every added element is pushed and was not there before |
| Ordered.AppendAbsentOrder | plugins/vscode/src/extension.ts:475-476 | added elements come in order of first occurrence |
| Ordered.DistinctProperties | plugins/vscode/src/extension.ts:475-476 | duplicate removal keeps each element once, in order of first occurrence |
| Ordered.DistinctConcat | plugins/vscode/src/extension.ts:497-511 | the distinct elements of `a + b` start with those of `a`, then add ones of `b` not in `a` |
| Ordered.FlatMapPrefixSnoc | scripts/extract_imports.py:128-137 | one more line extends the imports by that line's |
| Ordered.FlatMapAppend | scripts/extract_imports.py:128-137 | the imports of two runs of lines are concatenated |
| Ordered.FlatMapMembers | scripts/extract_imports.py:128-137 | an import is found exactly when some line gives it |
| Dicts.KeysMembers | scripts/extract_imports.py:140 | a key is listed exactly when some pair holds it |
| Dicts.Get | scripts/filter_import_dataset.py:47 | lookup fails exactly for a missing key |
| Dicts.Put | scripts/extract_imports.py:140 | assigning a new key appends it, and assigning an existing key keeps the order |
| Dicts.PutGet | scripts/extract_imports.py:140 | after `d[k] = v` the key maps to `v`, other keys are unchanged, and keys stay unique |
| Dicts.PutAllSnoc | scripts/extract_imports.py:140 | one more assignment is one more `Put` |
| Dicts.LastValueSnoc | scripts/extract_imports.py:140 | the last value assigned to a key is the final one |
| Dicts.KeysSnoc | scripts/extract_imports.py:140 | one more pair adds its key last |
| Dicts.PutKeys | scripts/extract_imports.py:140 | assignment adds its key if absent |
| Dicts.PutAllKeys | scripts/extract_imports.py:140 | the keys after many assignments are the old keys and the new ones, each once |
| Dicts.PutAllUnique | scripts/extract_imports.py:140 | assignments keep keys unique |
| Dicts.PutAllGet | scripts/extract_imports.py:140 | after many assignments a key maps to its last assigned value, or to its old value when it was not assigned |
| Text.LowerProperties | plugins/vscode/src/extension.ts:399 | `toLowerCase` leaves no upper-case ASCII letter, and is idempotent |
| Text.IndexOf | plugins/vscode/src/extension.ts:475 | `indexOf` gives the first position, or none when absent |
| Text.LastIndexOf | plugins/vscode/src/extension.ts:399 | `lastIndexOf` gives the last position, or none when absent |
| Text.FindFrom | scripts/extract_imports.py:31 | the first occurrence at or after a position, or none |
| Text.BeforeFirst | plugins/vscode/src/extension.ts:526 | `split(' as ')[0]`: a prefix at none of whose positions the separator starts, which is the whole text or is followed by the separator |
| Text.SplitOn | plugins/vscode/src/extension.ts:527 | `split` gives at least one part and no part holds the separator |
| Text.JoinSplitOn | scripts/extract_imports.py:65 | joining the parts of a split with the separator gives the text back |
| Text.JoinAppend | scripts/extract_imports.py:65 | joining two non-empty lists puts the separator between them |
| Text.ReplaceCharProperties | scripts/extract_imports.py:218 | after `replace` no replaced character is left, a second `replace` changes nothing, and every other character is still there |
| Text.TrimJs | plugins/vscode/src/extension.ts:529 | `trim` leaves no white space at either end |
| Text.TrimJsInfix | plugins/vscode/src/extension.ts:529 | the result is a piece of the text with only white space before and after it |
| Text.UpperProperties | scripts/extract_imports.py:217 | `upper` leaves no lower-case ASCII letter, and is idempotent |
| Text.RStrip | scripts/extract_imports.py:217 | `rstrip` removes just the trailing white space |
| Text.SliceOfSlice | scripts/extract_imports.py:31 | a slice of a slice is a slice of the text |

## Left out

- Activation, the webview panel and the HTML pages are not modelled (`extension.ts` lines 100-246 and 623-636), except for the handlers that change the plugin's state:
  - the active-editor handler (lines 118-122) is `Plugin.Extension.OnDidChangeActiveTextEditor`;
  - the `getContext` message (lines 178-180) is `Plugin.Extension.OnGetContext`;
  - the `setLanguage` message (lines 182-184) sets `language` as `Plugin.Extension.SetLanguage` does, which stands for it;
  - `getSuggestions` and `getModulesForFilter` (lines 185-190) call the request paths whose cache update is `Plugin.Extension.FillSuggestCache`;
  - the other messages show toasts, open URLs, reload the page or fetch intents, libraries, categories, feedback and snippets over HTTP; these, and the `error` and `snippets` variables that the snippet fetches set (lines 124-134 and 226-237), are not modelled.
- The console logging of the active-editor handler (line 119) is not modelled; its exception on an undefined editor is not either, since an `Editor` value always exists.
- The warning toast of `parseJava` (line 484) is not modelled.
- `onGetContext` (lines 249-277): its state change is `Plugin.Extension.OnGetContext`. The status and context messages it posts to the webview (lines 253-276) are not modelled.
- Configuration and proxy setup (lines 53-96) are not modelled. Nor are the category and suggestion requests or the snippet lookup (lines 279-321 and 338-347), or HTTP (lines 642-738). Those requests put the `language` field in their paths (lines 280, 302, 326 and 355), so a request made after a `no_editor` or `unsupported` reply names that tag as its language; the model keeps that value in `language` but has no request paths.
- The mapping service is the parameter `mapper`. Its callback is treated as returning before the reply.
- `xml2js.parseString` and `JSON.parse` are not modelled. Their results are parameters with an error case: `PomOutcome` and `JsonOutcome`. A POM that parses but lacks `dependencies` throws in the source; that case is not modelled.
- `getModulesForFilter` (`extension.ts` lines 352-379) fills the suggestion cache as `getModulesForIntent` does. `Plugin.Extension.FillSuggestCache` stands for both.
- `toLowerCase`, `upper` and the `\w` class are modelled for ASCII letters only. No Unicode case mapping is modelled.
- The text of a file is taken as what Python's text-mode `read` with `errors='ignore'` returns: undecodable bytes are already dropped, and `\r\n` and a lone `\r` have already become `\n`. So a `//` comment in the model stops where the file had a `\r`. The decoding itself is not modelled.
- `glob`, file opening and reading, and the `dis` module are not modelled. A folder is its list of matching files with their texts, or with `None` where reading failed, and `dis` gives the top-level instructions of a file.
- The md5 digest is the parameter `md5`. Gzip, JSON reading and writing, command-line arguments, output file names and progress bars are not modelled.
- `filter_pretty_imports` is the identity in the source and is not a separate member.
- Regular expressions are hand-written recognisers for the exact patterns of the source, not a general regex engine. Only the requirement and PHP simple-list recognisers state when a match exists as well as what it looks like.
- Patterns.PluginJavaImportAt: states what every match looks like, not that every text of that shape matches, because the converse would repeat the recogniser.
- Patterns.RequireAt: states what every match looks like, not that every text of that shape matches, because the converse would repeat the recogniser.
- Patterns.EsImportAt: states what every match looks like, not that every text of that shape matches, because the converse would repeat the recogniser.
- Patterns.PluginPythonImportAt: states what every match looks like, not that every text of that shape matches, because the converse would repeat the recogniser.
- Patterns.PluginPythonFromAt: states what every match looks like, not that every text of that shape matches, because the converse would repeat the recogniser.
- Patterns.JavaImportAt: states what every match looks like, not that every text of that shape matches, because the converse would repeat the recogniser.
- Patterns.CsUsingAt: states what every match looks like, not that every text of that shape matches, because the converse would repeat the recogniser.
- Patterns.CsUsingStaticAt: states what every match looks like, not that every text of that shape matches, because the converse would repeat the recogniser.
- Patterns.PhpUseKeywordAt: states what every match looks like, not that every text of that shape matches, because the converse would repeat the recogniser.
- Patterns.PhpUseAt: states what every match looks like, not that every text of that shape matches, because the converse would repeat the recogniser.
- Patterns.PhpGroupSplitAt: states what every match looks like, not that every text of that shape matches, because the converse would repeat the recogniser.
- Patterns.PhpComplexListAt: states what every match looks like, not that every text of that shape matches, because the converse would repeat the recogniser.
- Patterns.RubyRequireAt: states what every match looks like, not that every text of that shape matches, because the converse would repeat the recogniser.
- A PHP file is read as one line, as `split=False` does.
- DedupSpec: assumes that no digest is one character long, which holds for md5's 32 hex digits, and that project names in a batch are unique, which holds for JSON object keys.
- DedupMembers, DedupRecords and DedupKeepsTwins: same assumptions as DedupSpec.
- `scripts/gitgrab.py`, `scripts/create_crawl_scripts.py` and `scripts/create_import_dataset.py` are not part of this model.
