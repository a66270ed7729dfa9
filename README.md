# tern integration tests: a verified model of the test driver

`test.js` drives tern's integration tests. Each directory under `groups/`
is a test group: its `test.json` names definition files, plugins and files
to load eagerly; every `.js` file in it is a test case. For a group the
driver builds an analysis session (a tern server), registers the case files
between two flushes and creates one test per case. A test case first takes
a snapshot of every definition the scope visitor reports, then checks the
inline directives written in comments of the case file:

- `DEF:<path>[:<kind>[:<alias>]]` — the definition `path` was emitted in
  the `local` or `nonlocal` bucket (default `nonlocal`), originates at the
  annotated node, and aliases `alias` exactly when one is given;
- `TYPE:<type>` — the type inferred for the annotated expression renders
  as `<type>`;
- `HAS_PROPS:<a,b,...>` — every listed property is among the properties of
  the inferred type.

The model has five modules:

- `Wrappers` — `Option`, `Result`, and `Verdict` (pass, or fail with a diagnostic).
- `Text` — the JavaScript string and array operations the driver relies on:
  `trim`, `split` on one character, `indexOf`, the `/\.xyz$/` suffix tests,
  `replace` with a string pattern, and the default `sort`.
- `Snapshot` — the fold of the scope visitor's callbacks into the four
  path-keyed tables (`Inspect`, specified by `Fold`).
- `Directives` — the node filters, DEF parsing and checking, TYPE and
  HAS_PROPS checking (`CheckHasProps`, specified by `HasPropsVerdict`), and
  the per-case runner that stops at the first failed assertion.
- `Group` — `findFile`, definition file names, plugin loading
  (`LoadPlugins`, specified by `LoadPluginsSpec`), the `$(VENDOR)`
  substitution, case selection, and the ordered trace of what a group asks
  of the server (`AddTestGroup`).

Tern itself is not modelled. Its answers are inputs: the callbacks the scope
visitor makes (`Snapshot.Visit`), the type inferred at an annotated node
(`Directives.Inferred`), the outcome of each flush, and the set of files that
exist.

Where the code and its documentation differ, the model follows the code:

- HAS_PROPS trims the whole payload once and then splits it on `,`, so
  spaces around inner commas stay part of the names.
- HAS_PROPS does not collapse repeated names. Each repetition must be
  matched by its own enumerated property (`DuplicatesNeedEachTheirOwn`).
- An empty HAS_PROPS payload asks for one property named `""`.
- A DEF kind other than `local`/`nonlocal` fails the check, reported as
  `UnknownKind`. For most kinds the code dereferences `undefined` and throws
  a `TypeError`. A kind that names a member every object inherits
  (`constructor`, `toString`, `hasOwnProperty`, `__proto__`) selects that
  member instead, and the assertion on the next line fails.

## Model

| member | source | states |
|---|---|---|
| Text.TrimStart | test.js:86 | the result is a suffix of the input, what it drops is white space only, and it does not start with white space |
| Text.TrimEnd | test.js:86 | the result is a prefix of the input, what it drops is white space only, and it does not end with white space |
| Text.Trim | test.js:86 | the result, the leading and then the trailing white space dropped, has no white space at either end |
| Text.TrimmedFixed | test.js:86 | a string without white space at either end is left alone |
| Text.TrimUnpads | test.js:86 | trimming removes exactly the whitespace padding around a trimmed string |
| Text.TrimIdempotent | test.js:86 | trimming twice is trimming once |
| Text.Split | test.js:55 | `split` on one character yields at least one piece and no piece contains the separator |
| Text.JoinSplit | test.js:55 | joining the pieces of a split with the separator gives back the input |
| Text.SplitJoin | test.js:55 | splitting a join of separator-free pieces gives back the pieces |
| Text.SplitWhole | test.js:55 | a string without the separator splits into itself alone |
| Text.SplitAtFirst | test.js:55-57 | the first piece ends at the first separator and the rest splits independently |
| Text.SplitLastPiece | test.js:146 | the last piece is the longest separator-free suffix: the whole string, or what follows its last separator |
| Text.IndexOf | test.js:34 | `indexOf` returns the first index holding the value, or -1 exactly when it is absent |
| Text.EndsWith | test.js:16 | the `/\.js$/` and `/\.json$/` tests (also test.js:130): the string ends with the suffix; specification predicate used by `JsFiles` and `DefFileName` |
| Text.FindText | test.js:158 | the search returns the first occurrence of the pattern at or after the start, or -1 when there is none |
| Text.ReplaceFirst | test.js:158 | a string without the pattern is returned unchanged |
| Text.ReplaceFirstOnly | test.js:158 | `replace` with a string pattern substitutes the first occurrence only and keeps everything after it as written |
| Text.StrLeTotal | test.js:17 | the default sort order compares any two strings |
| Text.StrLeAntisymmetric | test.js:17 | strings ordered both ways are equal |
| Text.StrLeTransitive | test.js:17 | the default sort order is transitive |
| Text.StrLe | test.js:17 | the order the default `sort` uses: lexicographic by character, a proper prefix first; a total order by `StrLeTotal`, `StrLeAntisymmetric`, `StrLeTransitive` |
| Text.Insert | test.js:17 | inserting adds exactly one copy of the element |
| Text.InsertSorted | test.js:17 | inserting into a sorted list keeps it sorted |
| Text.Sort | test.js:17 | `sort` returns a sorted permutation of its input |
| Text.SortedPermutationUnique | test.js:103-104 | two sorted permutations of the same list are equal, so the sorted diagnostics do not depend on enumeration order |
| Snapshot.Empty | test.js:42 | the four tables start empty |
| Snapshot.Tables.Table | test.js:44 | the definition table a callback writes to: `locals` for a local definition, else `nonlocals` |
| Snapshot.Tables.AliasTable | test.js:45 | the alias table a callback writes to, chosen the same way |
| Snapshot.Tables.DefsOf | test.js:58 | the kind selects a table exactly for `local` and `nonlocal`, and it is that bucket's table |
| Snapshot.Tables.AliasesOf | test.js:65 | the kind selects an alias table exactly for `local` and `nonlocal`, and it is that bucket's alias table |
| Snapshot.Record | test.js:44-45 | a callback sets its path in its own bucket only, and records its alias in the same bucket only when the alias is truthy |
| Snapshot.Fold | test.js:42-46 | specification of the callback loop: the tables after the callbacks in order, each applied by `Record`; characterised by `FoldKeys`, `FoldLastWrite`, `FoldAliasKeys`, `FoldLastAlias` |
| Snapshot.Inspect | test.js:42-46 | the four tables after the callbacks are their fold in order, and hold no falsy alias |
| Snapshot.FoldKeys | test.js:44 | a path is in a bucket exactly when some callback reported it there |
| Snapshot.FoldLastWrite | test.js:44 | the last callback for a path in a bucket decides its entry |
| Snapshot.FoldAliasKeys | test.js:45 | a path has an alias exactly when some callback for it in that bucket carried a truthy alias |
| Snapshot.FoldLastAlias | test.js:45 | the last truthy alias for a path stays; later callbacks without an alias do not erase it |
| Snapshot.FoldAliasesTruthy | test.js:45 | the alias tables never hold a falsy value |
| Directives.NodeFilter | test.js:33-35 | TYPE and HAS_PROPS accept exactly `Identifier` and `ThisExpression` nodes |
| Directives.DefNodeFilter | test.js:54 | DEF accepts exactly `Identifier`, `Literal` and `FunctionExpression` nodes; used by `FiltersOverlapOnIdentifiers` |
| Directives.FiltersOverlapOnIdentifiers | test.js:33-54 | DEF and TYPE both accept exactly `Identifier` nodes, and TYPE and HAS_PROPS accept the same nodes |
| Directives.ParseDef | test.js:55-63 | the parsed path, kind and alias contain no `:` and the kind is never empty (missing or empty means `nonlocal`) |
| Directives.ParseFormatDef | test.js:55-63 | parsing any `path:kind[:alias]` payload whose parts have no `:` gives back its parts, an empty kind (`path:`, `path::alias`) read as `nonlocal` |
| Directives.ParseDefPathOnly | test.js:55-63 | a payload without `:` is a `nonlocal` path with no alias |
| Directives.ParseDefIgnoresLater | test.js:55-63 | fields after the third `:` are ignored |
| Directives.ParseDefEmptyAlias | test.js:55-63 | an empty alias segment at the end (`path:kind:`) asks for no alias, an empty kind read as `nonlocal` |
| Directives.RecordedAlias | test.js:65-68 | the alias recorded for a path in a bucket, with `""` when there is none, so "absent or falsy" is one test |
| Directives.DefHolds | test.js:58-68 | specification of a DEF check: a known kind, the path in its bucket at the annotated node, and the recorded alias equal to the wanted one (none wanted: none recorded); `CheckDef` passes exactly when it holds |
| Directives.CheckDef | test.js:58-69 | DEF passes exactly when the path is in the kind's bucket, originates at the annotated node, and its recorded alias equals the wanted one (none wanted: none recorded); unknown kind and missing path fail first, and each alias failure implies the definition itself was found |
| Directives.LastDefHolds | test.js:42-68 | after the callbacks, the last callback's path is in its bucket at its origin node, with no alias when none was ever recorded |
| Directives.DefPassesForLastVisit | test.js:42-69 | a DEF payload naming the last callback's path and bucket, without an alias, passes when no alias was ever recorded for that path |
| Directives.LastAliasHolds | test.js:42-66 | after the callbacks, the last callback's path is in its bucket at its origin node and aliases the last truthy alias recorded for it |
| Directives.DefAliasPassesForLastVisit | test.js:42-69 | a DEF payload naming the last callback's path, its bucket and the last truthy alias recorded for it passes |
| Directives.ChosenType | test.js:79 | the value type is used when there is one, else the function type; there is no type only when both are missing |
| Directives.CheckType | test.js:79-82 | TYPE passes exactly when a type was inferred and renders as the wanted string; it fails with no type exactly when neither type exists |
| Directives.ValueTypeShadowsFunctionType | test.js:79 | when there is a value type, the function type does not affect TYPE |
| Directives.WantedProps | test.js:86 | the wanted list has at least one entry and no entry contains `,` |
| Directives.WantedPropsNames | test.js:86 | a payload made of comma-joined names padded with white space at its two ends only yields exactly those names, white space next to inner commas included |
| Directives.WantedPropsBlank | test.js:86 | an empty or all-white-space payload wants the single name `""` |
| Directives.RemoveFirst | test.js:100-101 | `indexOf` then `splice` removes exactly one occurrence of a present name and leaves the list unchanged otherwise |
| Directives.Pending | test.js:98-102 | specification of the enumeration loop: the wanted list after each enumerated property removed its first equal entry; characterised by `PendingIsDifference` |
| Directives.PendingIsDifference | test.js:98-102 | the names left after the enumeration are the wanted names minus the enumerated ones, counted with repetitions |
| Directives.HasPropsVerdict | test.js:86-106 | specification of the HAS_PROPS visitor: no type fails first, else the pending names decide, reported sorted; characterised by `HasPropsSubset` |
| Directives.CheckHasProps | test.js:86-106 | the loop over enumerated properties computes the HAS_PROPS verdict, with both diagnostic lists sorted |
| Directives.HasPropsSubset | test.js:86-106 | HAS_PROPS passes exactly when a type was inferred and every wanted name, counted with repetitions, is among its properties |
| Directives.ExtraPropsNeverFail | test.js:98-106 | a HAS_PROPS that passes still passes when the type has more properties |
| Directives.NeverEnumeratedStaysMissing | test.js:98-106 | a wanted name that is never enumerated is reported missing |
| Directives.DuplicatesNeedEachTheirOwn | test.js:86-101 | a name stays pending exactly when it is wanted more times than it is enumerated, so repeated names are not collapsed |
| Directives.DirectiveVerdict | test.js:54-107 | the verdict of the one visitor a directive's kind selects: `CheckDef`, `CheckType` or `HasPropsVerdict` |
| Directives.RunCase | test.js:48-111 | a case passes exactly when every directive passes; a failure names the first failing directive and its diagnostic |
| Group.UnderRoot | test.js:10 | `resolve(pth)`: the path under the script's directory |
| Group.ResolvePath | test.js:122-124 | `path.resolve(dir, file)`: an absolute name is the result, any other is appended to the directory after a `/`; either way the result ends with the file name |
| Group.FindFile | test.js:121-126 | the preferred directory wins, the fallback is used only when the preferred file is absent, and there is no result exactly when the file is in neither directory |
| Group.DefFileName | test.js:130 | a definition name ends in `.json`; one that already does is unchanged, any other gets the suffix appended |
| Group.FindDef | test.js:131 | a definition file is looked for under its `.json` name in the group directory, then in tern's `defs` directory |
| Group.ResolveDefs | test.js:129-134 | specification of the `map` over the definition names: the paths found, or the error for the first one found nowhere; characterised by `ResolveDefsOk`, `ResolveDefsPaths`, `ResolveDefsMissing` |
| Group.ResolveDefsOk | test.js:129-134 | the definitions resolve exactly when each one is found |
| Group.ResolveDefsPaths | test.js:129-134 | resolved definitions are the paths found, one per name, in order |
| Group.ResolveDefsMissing | test.js:129-134 | when a definition is found nowhere, the error names the first such one, with its `.json` suffix |
| Group.StripTrailingSlashes | test.js:146 | the result is a prefix of the path, does not end in `/`, and what it drops is `/` only |
| Group.Basename | test.js:146 | a basename contains no `/` |
| Group.BasenameIsLastSegment | test.js:146 | the basename is the longest `/`-free suffix of the path without its trailing separators |
| Group.BasenamePlain | test.js:146 | a plugin name without `/` is its own basename |
| Group.BasenameLastSegment | test.js:146 | a nested plugin name such as `../plugins/foo` has the basename `foo` |
| Group.BasenameTrailingSlash | test.js:146 | a trailing `/` does not change the basename |
| Group.Truthy | test.js:139 | JavaScript truthiness of a plugin's value: `null`, `false`, `0` and `""` are falsy |
| Group.FindPlugin | test.js:140 | a plugin is looked for as `<name>.js` in the group directory, then in tern's `plugin` directory |
| Group.LoadPluginsSpec | test.js:135-149 | specification of the plugin loop: entry by entry, falsy values skipped, unfound names reported, found ones required and keyed by basename |
| Group.LoadPlugins | test.js:135-149 | the loop over plugin entries computes the options, the files required and the names reported missing |
| Group.PluginOptionStep | test.js:137-147 | one more entry sets at most its own basename, only when it is truthy and found, to its own value, and leaves every other option as it was |
| Group.LoadedPluginSetsOption | test.js:137-147 | a plugin that is truthy and found sets the option named by its basename |
| Group.LoadedPluginOptionValue | test.js:137-147 | the option of a loaded plugin holds that plugin's value when no later loaded plugin has the same basename |
| Group.OptionFromLoadedPlugin | test.js:137-147 | every option comes from a plugin that is truthy and found, under that plugin's basename |
| Group.PluginOptionsTruthy | test.js:138-146 | every option value is truthy |
| Group.MissingPluginsReported | test.js:140-143 | a truthy plugin found nowhere is reported |
| Group.ReportedPluginsAreMissing | test.js:139-143 | only truthy plugins found nowhere are reported |
| Group.PluginListsStep | test.js:139-145 | one more entry adds its found file to the required files exactly when it is loaded, and its name to the reported names exactly when it is truthy and found nowhere |
| Group.RequiredPluginFiles | test.js:139-145 | a plugin file is required exactly when some truthy entry is found at that path |
| Group.EagerFile | test.js:158 | a file name without `$(VENDOR)` is kept as written |
| Group.VendorFirstOnly | test.js:158 | only the first `$(VENDOR)` is replaced by the vendor directory |
| Group.EagerEvents | test.js:157-160 | one `addFile` per eager file, in order, after the substitution |
| Group.NewTernServer | test.js:128-162 | a missing definition throws before anything is added; otherwise the server gets the resolved definitions, the loaded plugin options and the group directory, and the eager files are added |
| Group.IsCaseFile | test.js:16 | a directory entry is a case exactly when its name ends with `.js` |
| Group.JsFiles | test.js:16 | the filtered entries are exactly the `.js` entries, with their repetitions |
| Group.SelectCases | test.js:16-17 | the cases are the `.js` entries, sorted |
| Group.CasesAreTheJsEntries | test.js:16-17 | a name is a case exactly when it is a directory entry ending in `.js` |
| Group.CasePath | test.js:22-27 | `path.join(groupPath, name)` for a plain case file name: the name under the group directory |
| Group.AddEvents | test.js:21-23 | one `addFile` per case, in order |
| Group.CaseEvents | test.js:26-28 | one `addTestCase` per case, in order |
| Group.AddCaseFiles | test.js:21-23 | the loop appends the case files' `addFile` events |
| Group.AddTestCases | test.js:26-28 | the loop appends the test cases' events |
| Group.GroupTrace | test.js:12-31 | specification of the group's events: the eager files, a flush, the case files, a flush, the test cases, cut right after a failed flush; characterised by `GroupOrder` |
| Group.FlushError | test.js:18-25 | the error a failed flush throws, the first flush's taking precedence; none when both succeed |
| Group.AddTestGroup | test.js:12-31 | a missing definition ends the group with no events; otherwise the eager files, a flush, the case files, a flush, the test cases, each failed flush ending the trace right after it with its error |
| Group.GroupOrder | test.js:17-29 | in a complete group there are exactly two flushes, every case file is added between them and every test case is created after the second, both in sorted order |

## Left out

- Choosing the node a directive annotates, and scanning comments for directives. The astannotate library does this (test.js:54, 71, 85, 109). Directives come in already attached to their nodes.
- Tern's own behaviour: the scope graph and its walk (test.js:43), type inference (test.js:72-74, 87-89), property enumeration (test.js:98), rendering of types (test.js:81). Their results are inputs.
- Finding the case's file among the server's files (test.js:38) and the node.js module propagation (test.js:40).
- Discovering groups (`runTests`, test.js:114-119): it is file-system enumeration.
- Reading and parsing files, `require`, `process.stderr`, `getFile`, `debug`: I/O. The loaded definitions are their file paths, the required plugins are their paths, and the stderr warnings are the missing names.
- The text of diagnostics (line info, source slices, `util.inspect`, `toString` of a type). Failures carry the data the messages show, not the messages.
- Mocha's `describe`/`it`/`done` and asynchronous flushes. Each flush is one atomic event that succeeds or fails, and a failed flush ends the group.
- Group.LoadPlugins: `for…in` lists integer-like keys first. The model takes the plugin entries in the order given.
- Group.ResolvePath: does not normalise `.` and `..` segments the way `path.resolve` does.
- Group.FindFile: the file system is a set of existing paths fixed for the whole run.
- Text.ReplaceFirst: does not interpret `$` patterns in the replacement string. The vendor directory is assumed not to contain `$`.
- Text.StrLe: compares by character code points. JavaScript's default sort compares UTF-16 code units, and the two orders differ only for characters outside the Basic Multilingual Plane.
- Snapshot.Record: a path named like a property inherited by plain objects (`toString`, `__proto__`) is a plain key here. In JavaScript such a lookup finds the inherited property.
- Snapshot.Prop: a tern property is always truthy, so it is reduced to its origin node.
- Snapshot.Visit: every falsy alias (`undefined`, `null`, `""`) is the empty string.
- Snapshot.Tables.DefsOf: a DEF kind naming an inherited object member (`constructor`, `toString`, `__proto__`) selects that member in JavaScript, not `undefined`. Its assertion then fails instead of throwing a `TypeError`. Either way the directive fails, and the model reports `UnknownKind` for both.
- Directives.CheckDef: the alias comparison `should.eql` (test.js:66) comes from the should.js library, which test.js never loads. It works only when the test runner loads should.js globally. The model compares the two strings for equality.
