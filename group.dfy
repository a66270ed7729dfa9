/**
 * Setting up one test group (test.js:12-31, 121-162): the analysis
 * session's configuration is built from the group's `test.json`
 * (definition files, plugins, files to load eagerly), then the case
 * files are registered between two flushes and the test cases created.
 *
 * The file system is a set of existing paths; reading and parsing files,
 * `require`, and the tern server itself are outside the model. What the
 * group does to the server is recorded as a trace of events, each flush
 * an atomic event that either succeeds or fails.
 */
module Group {
  import opened Wrappers
  import opened Text

  /** `resolve(pth)`: a path relative to the directory of the test script, `root`. */
  function UnderRoot(root: string, rel: string): string {
    root + "/" + rel
  }

  /** `path.resolve(dir, file)`: an absolute file name stands, any other is taken relative to `dir`. */
  function ResolvePath(dir: string, file: string): (r: string)
    ensures |file| <= |r| && r[|r| - |file|..] == file
    ensures |file| > 0 && file[0] == '/' ==> r == file
    ensures !(|file| > 0 && file[0] == '/') ==> r == dir + "/" + file
  {
    if |file| > 0 && file[0] == '/' then file else dir + "/" + file
  }

  /** `findFile`: the file in the preferred directory, else in the fallback directory, else undefined. */
  function FindFile(file: string, preferDir: string, fallbackDir: string, files: set<string>): (r: Option<string>)
    ensures r.Some? ==> r.value in files
    ensures ResolvePath(preferDir, file) in files ==> r == Some(ResolvePath(preferDir, file))
    ensures ResolvePath(preferDir, file) !in files ==>
      r == (if ResolvePath(fallbackDir, file) in files then Some(ResolvePath(fallbackDir, file)) else None)
    ensures r.None? <==> ResolvePath(preferDir, file) !in files && ResolvePath(fallbackDir, file) !in files
  {
    var local := ResolvePath(preferDir, file);
    if local in files then Some(local)
    else
      var shared := ResolvePath(fallbackDir, file);
      if shared in files then Some(shared) else None
  }

  // ----- definition files -----

  /** The definition file name (test.js:130): `.json` is appended unless the name already ends with it. */
  function DefFileName(file: string): (r: string)
    ensures EndsWith(r, ".json")
    ensures EndsWith(file, ".json") ==> r == file
    ensures !EndsWith(file, ".json") ==> r == file + ".json"
  {
    if EndsWith(file, ".json") then file
    else
      assert (file + ".json")[|file|..] == ".json";
      file + ".json"
  }

  /** Where one definition file is looked for: the group directory, then tern's own `defs`. */
  function FindDef(file: string, dir: string, root: string, files: set<string>): Option<string> {
    FindFile(DefFileName(file), dir, UnderRoot(root, "node_modules/tern/defs"), files)
  }

  /** The lookup `newTernServer` applies to each definition name. */
  function DefLookup(dir: string, root: string, files: set<string>): string -> Option<string> {
    file => FindDef(file, dir, root, files)
  }

  /** Definition `i` is the first that `find` finds nowhere. */
  predicate FirstMissingDef(defs: seq<string>, i: int, find: string -> Option<string>) {
    && 0 <= i < |defs|
    && find(defs[i]).None?
    && forall j :: 0 <= j < i ==> find(defs[j]).Some?
  }

  /**
   * `(testInfo.defs || []).map(...)`: the path of every definition file, in
   * order, or the error thrown for the first one found nowhere.
   */
  function ResolveDefs(defs: seq<string>, find: string -> Option<string>): Result<seq<string>, string>
    decreases |defs|
  {
    if defs == [] then Ok([])
    else match find(defs[0])
      case None => Err(DefFileName(defs[0]))
      case Some(p) =>
        match ResolveDefs(defs[1..], find)
        case Err(e) => Err(e)
        case Ok(ps) => Ok([p] + ps)
  }

  /** The definitions resolve exactly when each is found. */
  lemma {:induction false} ResolveDefsOk(defs: seq<string>, find: string -> Option<string>)
    ensures ResolveDefs(defs, find).Ok? <==>
      forall i :: 0 <= i < |defs| ==> find(defs[i]).Some?
    decreases |defs|
  {
    if defs != [] {
      ResolveDefsOk(defs[1..], find);
      if ResolveDefs(defs, find).Ok? {
        forall i | 0 <= i < |defs| ensures find(defs[i]).Some? {
          if i > 0 {
            assert defs[i] == defs[1..][i - 1];
          }
        }
      }
    }
  }

  /** Resolved definitions are the paths found, one per name, in order. */
  lemma {:induction false} ResolveDefsPaths(defs: seq<string>, find: string -> Option<string>)
    ensures var r := ResolveDefs(defs, find);
      r.Ok? ==> |r.value| == |defs| && forall i :: 0 <= i < |defs| ==> find(defs[i]) == Some(r.value[i])
    decreases |defs|
  {
    var r := ResolveDefs(defs, find);
    if defs != [] && r.Ok? {
      ResolveDefsPaths(defs[1..], find);
      var rest := ResolveDefs(defs[1..], find);
      forall i | 0 <= i < |defs| ensures find(defs[i]) == Some(r.value[i]) {
        if i > 0 {
          assert defs[i] == defs[1..][i - 1] && r.value[i] == rest.value[i - 1];
        }
      }
    }
  }

  /** Past a definition that is found, the first missing one is one place earlier in the tail. */
  lemma FirstMissingInTail(defs: seq<string>, i: int, find: string -> Option<string>)
    requires FirstMissingDef(defs, i, find) && i > 0
    ensures FirstMissingDef(defs[1..], i - 1, find)
  {
    forall j | 0 <= j < i - 1 ensures find(defs[1..][j]).Some? {
      assert defs[1..][j] == defs[j + 1];
    }
    assert defs[1..][i - 1] == defs[i];
  }

  /** The first definition found nowhere makes the whole list fail, and the error names it. */
  lemma {:induction false} ResolveDefsMissing(defs: seq<string>, find: string -> Option<string>, i: int)
    requires FirstMissingDef(defs, i, find)
    ensures ResolveDefs(defs, find) == Err(DefFileName(defs[i]))
    decreases |defs|
  {
    if i == 0 {
      assert find(defs[0]).None?;
    } else {
      assert find(defs[0]).Some?;
      FirstMissingInTail(defs, i, find);
      ResolveDefsMissing(defs[1..], find, i - 1);
    }
  }

  // ----- plugins -----

  /** A JSON value from `test.json`. */
  datatype Json =
    | JNull
    | JBool(b: bool)
    | JNumber(n: real)
    | JString(s: string)
    | JArray(items: seq<Json>)
    | JObject(fields: seq<(string, Json)>)

  /** JavaScript truthiness of a parsed JSON value. */
  predicate Truthy(v: Json) {
    match v
    case JNull => false
    case JBool(b) => b
    case JNumber(n) => n != 0.0
    case JString(s) => s != ""
    case JArray(_) => true
    case JObject(_) => true
  }

  /** Drops trailing separators, as `path.basename` does before taking the last segment. */
  function StripTrailingSlashes(p: string): (r: string)
    ensures r == [] || r[|r| - 1] != '/'
    ensures |r| <= |p| && r == p[..|r|]
    ensures forall k :: |r| <= k < |p| ==> p[k] == '/'
  {
    if p != [] && p[|p| - 1] == '/' then StripTrailingSlashes(p[..|p| - 1]) else p
  }

  /** `path.basename(p)` on POSIX: the last segment of the path once trailing separators are dropped. */
  function Basename(p: string): (r: string)
    ensures '/' !in r
  {
    var parts := Split(StripTrailingSlashes(p), '/');
    parts[|parts| - 1]
  }

  /**
   * The basename is the longest suffix without `/` of the path stripped of
   * its trailing separators: all of it, or what follows its last `/`.
   */
  lemma BasenameIsLastSegment(p: string)
    ensures var s := StripTrailingSlashes(p); var n := |Basename(p)|;
      n <= |s| && Basename(p) == s[|s| - n..] && (n == |s| || s[|s| - n - 1] == '/')
  {
    var s := StripTrailingSlashes(p);
    var parts := Split(s, '/');
    var last := parts[|parts| - 1];
    SplitLastPiece(s, '/');
    assert |last| <= |s| && last == s[|s| - |last|..] && (|last| == |s| || s[|s| - |last| - 1] == '/');
    assert Basename(p) == last;
  }

  /** A plain plugin name, without separators, is its own basename. */
  lemma BasenamePlain(name: string)
    requires '/' !in name
    ensures Basename(name) == name
  {
    assert StripTrailingSlashes(name) == name;
    SplitWhole(name, '/');
  }

  /** A nested plugin name, such as `../plugins/foo`, is keyed by its last segment. */
  lemma BasenameLastSegment(dir: string, name: string)
    requires name != [] && '/' !in name
    ensures Basename(dir + "/" + name) == name
  {
    var p := dir + "/" + name;
    assert p[|p| - 1] == name[|name| - 1];
    assert StripTrailingSlashes(p) == p;
    BasenameIsLastSegment(p);
    var r := Basename(p);
    assert p[|dir|] == '/';
    assert p[|p| - |name|..] == name;
  }

  /** Trailing separators do not change the basename. */
  lemma BasenameTrailingSlash(p: string)
    ensures Basename(p + "/") == Basename(p)
  {
    assert (p + "/")[..|p + "/"| - 1] == p;
  }

  /** What `loadPlugins` produces: the options object, the files it `require`s, the names it warns about. */
  datatype PluginLoad = PluginLoad(options: map<string, Json>, required: seq<string>, missing: seq<string>)

  /** Where a plugin is looked for: the group directory, then tern's own `plugin` directory. */
  function FindPlugin(name: string, dir: string, root: string, files: set<string>): Option<string> {
    FindFile(name + ".js", dir, UnderRoot(root, "node_modules/tern/plugin"), files)
  }

  /** The effect of the `for…in` loop over the plugins, entry by entry in enumeration order. */
  function LoadPluginsSpec(plugins: seq<(string, Json)>, dir: string, root: string, files: set<string>): PluginLoad
    decreases |plugins|
  {
    if plugins == [] then PluginLoad(map[], [], [])
    else
      var acc := LoadPluginsSpec(plugins[..|plugins| - 1], dir, root, files);
      var (name, val) := plugins[|plugins| - 1];
      if !Truthy(val) then acc
      else match FindPlugin(name, dir, root, files)
        case None => acc.(missing := acc.missing + [name])
        case Some(found) =>
          acc.(options := acc.options[Basename(name) := val], required := acc.required + [found])
  }

  /** `loadPlugins(testInfo.plugins)` (test.js:135-149). */
  method LoadPlugins(plugins: seq<(string, Json)>, dir: string, root: string, files: set<string>) returns (load: PluginLoad)
    ensures load == LoadPluginsSpec(plugins, dir, root, files)
  {
    var options: map<string, Json> := map[];
    var required: seq<string> := [];
    var missing: seq<string> := [];
    for i := 0 to |plugins|
      invariant PluginLoad(options, required, missing) == LoadPluginsSpec(plugins[..i], dir, root, files)
    {
      PrefixNext(plugins, i);
      assert plugins[..i + 1][..i] == plugins[..i];
      var (name, val) := plugins[i];
      if !Truthy(val) {
        continue;
      }
      var found := FindPlugin(name, dir, root, files);
      if found.None? {
        missing := missing + [name];
        continue;
      }
      required := required + [found.value];
      options := options[Basename(name) := val];
    }
    PrefixWhole(plugins);
    load := PluginLoad(options, required, missing);
  }

  /** The plugin at index `i` is enabled and found, so it is loaded. */
  predicate Loads(plugins: seq<(string, Json)>, i: int, dir: string, root: string, files: set<string>) {
    0 <= i < |plugins| && Truthy(plugins[i].1) && FindPlugin(plugins[i].0, dir, root, files).Some?
  }

  /** One more plugin entry sets at most its own basename, to its own value. */
  lemma PluginOptionStep(plugins: seq<(string, Json)>, dir: string, root: string, files: set<string>, key: string)
    requires plugins != []
    ensures var n := |plugins| - 1;
      var full := LoadPluginsSpec(plugins, dir, root, files).options;
      var init := LoadPluginsSpec(plugins[..n], dir, root, files).options;
      && (key in full <==> key in init || (Loads(plugins, n, dir, root, files) && Basename(plugins[n].0) == key))
      && (Loads(plugins, n, dir, root, files) && Basename(plugins[n].0) == key ==> full[key] == plugins[n].1)
      && (!(Loads(plugins, n, dir, root, files) && Basename(plugins[n].0) == key) && key in init ==> full[key] == init[key])
  {
  }

  /** An entry of a prefix is loaded exactly when it is loaded in the whole sequence. */
  lemma LoadsInPrefix(plugins: seq<(string, Json)>, n: int, i: int, dir: string, root: string, files: set<string>)
    requires 0 <= i < n <= |plugins|
    ensures Loads(plugins[..n], i, dir, root, files) == Loads(plugins, i, dir, root, files)
    ensures plugins[..n][i] == plugins[i]
  {
  }

  /** A plugin that is enabled and found sets the option named by its basename. */
  lemma {:induction false} LoadedPluginSetsOption(plugins: seq<(string, Json)>, dir: string, root: string, files: set<string>, i: int, key: string)
    requires Loads(plugins, i, dir, root, files) && Basename(plugins[i].0) == key
    ensures key in LoadPluginsSpec(plugins, dir, root, files).options
    decreases |plugins|
  {
    var n := |plugins| - 1;
    PluginOptionStep(plugins, dir, root, files, key);
    if i < n {
      LoadsInPrefix(plugins, n, i, dir, root, files);
      LoadedPluginSetsOption(plugins[..n], dir, root, files, i, key);
    }
  }

  /** Every option comes from a plugin that is enabled and found, under its basename. */
  lemma {:induction false} OptionFromLoadedPlugin(plugins: seq<(string, Json)>, dir: string, root: string, files: set<string>, key: string)
    requires key in LoadPluginsSpec(plugins, dir, root, files).options
    ensures exists i :: Loads(plugins, i, dir, root, files) && Basename(plugins[i].0) == key
    decreases |plugins|
  {
    var n := |plugins| - 1;
    PluginOptionStep(plugins, dir, root, files, key);
    if !(Loads(plugins, n, dir, root, files) && Basename(plugins[n].0) == key) {
      OptionFromLoadedPlugin(plugins[..n], dir, root, files, key);
      var i :| Loads(plugins[..n], i, dir, root, files) && Basename(plugins[..n][i].0) == key;
      LoadsInPrefix(plugins, n, i, dir, root, files);
    }
  }

  /** Every option value is truthy: falsy entries are skipped, never passed on. */
  lemma {:induction false} PluginOptionsTruthy(plugins: seq<(string, Json)>, dir: string, root: string, files: set<string>)
    ensures forall key :: key in LoadPluginsSpec(plugins, dir, root, files).options ==>
      Truthy(LoadPluginsSpec(plugins, dir, root, files).options[key])
    decreases |plugins|
  {
    if plugins != [] {
      PluginOptionsTruthy(plugins[..|plugins| - 1], dir, root, files);
    }
  }

  /** The plugin at index `i` is enabled but found nowhere. */
  predicate Unfound(plugins: seq<(string, Json)>, i: int, dir: string, root: string, files: set<string>) {
    0 <= i < |plugins| && Truthy(plugins[i].1) && FindPlugin(plugins[i].0, dir, root, files).None?
  }

  /** A plugin that is found nowhere is reported, not loaded, and the loop goes on. */
  lemma {:induction false} MissingPluginsReported(plugins: seq<(string, Json)>, dir: string, root: string, files: set<string>, i: int)
    requires Unfound(plugins, i, dir, root, files)
    ensures plugins[i].0 in LoadPluginsSpec(plugins, dir, root, files).missing
    decreases |plugins|
  {
    var n := |plugins| - 1;
    if i < n {
      MissingPluginsReported(plugins[..n], dir, root, files, i);
    }
  }

  /** One more plugin entry adds at most its own file to `required` or its own name to `missing`. */
  lemma PluginListsStep(plugins: seq<(string, Json)>, dir: string, root: string, files: set<string>)
    requires plugins != []
    ensures var n := |plugins| - 1;
      var full := LoadPluginsSpec(plugins, dir, root, files);
      var init := LoadPluginsSpec(plugins[..n], dir, root, files);
      && full.required == init.required
           + (if Loads(plugins, n, dir, root, files) then [FindPlugin(plugins[n].0, dir, root, files).value] else [])
      && full.missing == init.missing + (if Unfound(plugins, n, dir, root, files) then [plugins[n].0] else [])
  {
  }

  /** No later loaded plugin shares the key: true of a prefix when true of the whole. */
  lemma NotOverwrittenInPrefix(plugins: seq<(string, Json)>, n: int, i: int, dir: string, root: string, files: set<string>, key: string)
    requires 0 <= i < n <= |plugins|
    requires forall j :: i < j < |plugins| && Loads(plugins, j, dir, root, files) ==> Basename(plugins[j].0) != key
    ensures forall j :: i < j < n && Loads(plugins[..n], j, dir, root, files) ==> Basename(plugins[..n][j].0) != key
  {
    forall j | i < j < n && Loads(plugins[..n], j, dir, root, files)
      ensures Basename(plugins[..n][j].0) != key
    {
      LoadsInPrefix(plugins, n, j, dir, root, files);
    }
  }

  /**
   * The option of a loaded plugin holds that plugin's own value, unless a
   * later loaded plugin has the same basename and overwrites it.
   */
  lemma {:induction false} LoadedPluginOptionValue(plugins: seq<(string, Json)>, dir: string, root: string, files: set<string>, i: int, key: string)
    requires Loads(plugins, i, dir, root, files) && Basename(plugins[i].0) == key
    requires forall j :: i < j < |plugins| && Loads(plugins, j, dir, root, files) ==> Basename(plugins[j].0) != key
    ensures key in LoadPluginsSpec(plugins, dir, root, files).options
    ensures LoadPluginsSpec(plugins, dir, root, files).options[key] == plugins[i].1
    decreases |plugins|
  {
    var n := |plugins| - 1;
    if i < n {
      NotOverwrittenInPrefix(plugins, n, i, dir, root, files, key);
      LoadsInPrefix(plugins, n, i, dir, root, files);
      LoadedPluginOptionValue(plugins[..n], dir, root, files, i, key);
      assert !(Loads(plugins, n, dir, root, files) && Basename(plugins[n].0) == key);
    }
    PluginOptionStep(plugins, dir, root, files, key);
  }

  /** A plugin file is required exactly when some enabled entry is found at that path. */
  lemma {:induction false} RequiredPluginFiles(plugins: seq<(string, Json)>, dir: string, root: string, files: set<string>, path: string)
    ensures path in LoadPluginsSpec(plugins, dir, root, files).required <==>
      exists i :: Loads(plugins, i, dir, root, files) && FindPlugin(plugins[i].0, dir, root, files) == Some(path)
    decreases |plugins|
  {
    if plugins != [] {
      var n := |plugins| - 1;
      PluginListsStep(plugins, dir, root, files);
      RequiredPluginFiles(plugins[..n], dir, root, files, path);
      if exists i :: Loads(plugins[..n], i, dir, root, files) && FindPlugin(plugins[..n][i].0, dir, root, files) == Some(path) {
        var i :| Loads(plugins[..n], i, dir, root, files) && FindPlugin(plugins[..n][i].0, dir, root, files) == Some(path);
        LoadsInPrefix(plugins, n, i, dir, root, files);
      }
      if exists i :: Loads(plugins, i, dir, root, files) && FindPlugin(plugins[i].0, dir, root, files) == Some(path) {
        var i :| Loads(plugins, i, dir, root, files) && FindPlugin(plugins[i].0, dir, root, files) == Some(path);
        if i < n {
          LoadsInPrefix(plugins, n, i, dir, root, files);
        }
      }
    }
  }

  /** Only enabled entries found nowhere are reported missing. */
  lemma {:induction false} ReportedPluginsAreMissing(plugins: seq<(string, Json)>, dir: string, root: string, files: set<string>, name: string)
    requires name in LoadPluginsSpec(plugins, dir, root, files).missing
    ensures exists i :: Unfound(plugins, i, dir, root, files) && plugins[i].0 == name
    decreases |plugins|
  {
    var n := |plugins| - 1;
    PluginListsStep(plugins, dir, root, files);
    if !(Unfound(plugins, n, dir, root, files) && plugins[n].0 == name) {
      ReportedPluginsAreMissing(plugins[..n], dir, root, files, name);
      var i :| Unfound(plugins[..n], i, dir, root, files) && plugins[..n][i].0 == name;
      assert plugins[..n][i] == plugins[i];
    }
  }

  // ----- eager files -----

  /** An eager file name (test.js:158): the first `$(VENDOR)` placeholder becomes the vendor directory. */
  function EagerFile(file: string, root: string): (r: string)
    ensures (forall k :: !OccursAt(file, "$(VENDOR)", k)) ==> r == file
  {
    ReplaceFirst(file, "$(VENDOR)", UnderRoot(root, "vendor"))
  }

  /**
   * Only the first `$(VENDOR)` is substituted: whatever follows it, a second
   * `$(VENDOR)` included, is kept as written.
   */
  lemma VendorFirstOnly(root: string, rest: string)
    ensures EagerFile("$(VENDOR)" + rest, root) == UnderRoot(root, "vendor") + rest
  {
    ReplaceFirstOnly([], "$(VENDOR)", rest, UnderRoot(root, "vendor"));
    assert [] + "$(VENDOR)" + rest == "$(VENDOR)" + rest;
  }

  // ----- the server -----

  /** The parts of `test.json` the setup reads; a missing field is an empty list. */
  datatype TestInfo = TestInfo(defs: seq<string>, plugins: seq<(string, Json)>, loadEagerly: seq<string>)

  /** The configuration `new tern.Server(...)` receives, with definitions as file paths. */
  datatype ServerConfig = ServerConfig(defs: seq<string>, plugins: map<string, Json>, projectDir: string)

  /** What the group asks of the analysis session, in order. */
  datatype Event = AddFile(file: string) | Flush | AddTestCase(name: string, file: string)

  datatype GroupError = DefNotFound(file: string) | FlushFailed(second: bool)

  /** `newTernServer` (test.js:128-162): the configuration and the eagerly added files. */
  method NewTernServer(root: string, dir: string, info: TestInfo, files: set<string>)
    returns (r: Result<(ServerConfig, seq<Event>), GroupError>)
    ensures ResolveDefs(info.defs, DefLookup(dir, root, files)).Err? ==>
      r == Err(DefNotFound(ResolveDefs(info.defs, DefLookup(dir, root, files)).error))
    ensures ResolveDefs(info.defs, DefLookup(dir, root, files)).Ok? ==>
      r == Ok((ServerConfig(ResolveDefs(info.defs, DefLookup(dir, root, files)).value,
                            LoadPluginsSpec(info.plugins, dir, root, files).options, dir),
               EagerEvents(info.loadEagerly, root)))
  {
    var defs := ResolveDefs(info.defs, DefLookup(dir, root, files));
    if defs.Err? {
      return Err(DefNotFound(defs.error));
    }
    var load := LoadPlugins(info.plugins, dir, root, files);
    var config := ServerConfig(defs.value, load.options, dir);
    var events: seq<Event> := [];
    for i := 0 to |info.loadEagerly|
      invariant events == EagerEvents(info.loadEagerly[..i], root)
    {
      PrefixNext(info.loadEagerly, i);
      events := events + [AddFile(EagerFile(info.loadEagerly[i], root))];
    }
    PrefixWhole(info.loadEagerly);
    r := Ok((config, events));
  }

  /** One `server.addFile` per eager file, in order, after the vendor substitution. */
  function EagerEvents(eager: seq<string>, root: string): (r: seq<Event>)
    ensures |r| == |eager|
    ensures forall i :: 0 <= i < |eager| ==> r[i] == AddFile(EagerFile(eager[i], root))
  {
    seq(|eager|, i requires 0 <= i < |eager| => AddFile(EagerFile(eager[i], root)))
  }

  // ----- the cases -----

  /** A directory entry is a test case when its name ends with `.js` (test.js:16). */
  predicate IsCaseFile(name: string) {
    EndsWith(name, ".js")
  }

  /** The case files among the directory entries (test.js:16): the `.js` entries, in order. */
  function JsFiles(entries: seq<string>): (r: seq<string>)
    ensures forall x :: multiset(r)[x] == if IsCaseFile(x) then multiset(entries)[x] else 0
    decreases |entries|
  {
    if entries == [] then []
    else
      assert entries == [entries[0]] + entries[1..];
      (if IsCaseFile(entries[0]) then [entries[0]] else []) + JsFiles(entries[1..])
  }

  /** The group's cases: the `.js` directory entries, sorted. */
  function SelectCases(entries: seq<string>): (cases: seq<string>)
    ensures Sorted(cases)
    ensures forall x :: multiset(cases)[x] == if IsCaseFile(x) then multiset(entries)[x] else 0
  {
    Sort(JsFiles(entries))
  }

  /** Every `.js` entry is a case, and every case is a `.js` entry. */
  lemma CasesAreTheJsEntries(entries: seq<string>, x: string)
    ensures x in SelectCases(entries) <==> x in entries && IsCaseFile(x)
  {
    var cases := SelectCases(entries);
    assert x in cases <==> multiset(cases)[x] > 0;
    assert x in entries <==> multiset(entries)[x] > 0;
  }

  /** `path.join(groupPath, name)` for a plain file name. */
  function CasePath(groupPath: string, name: string): string {
    groupPath + "/" + name
  }

  /** One `addFile` per case, in order. */
  function AddEvents(groupPath: string, cases: seq<string>): (r: seq<Event>)
    ensures |r| == |cases|
    ensures forall i :: 0 <= i < |cases| ==> r[i] == AddFile(CasePath(groupPath, cases[i]))
  {
    seq(|cases|, i requires 0 <= i < |cases| => AddFile(CasePath(groupPath, cases[i])))
  }

  /** One `addTestCase` per case, in order. */
  function CaseEvents(groupPath: string, cases: seq<string>): (r: seq<Event>)
    ensures |r| == |cases|
    ensures forall i :: 0 <= i < |cases| ==> r[i] == AddTestCase(cases[i], CasePath(groupPath, cases[i]))
  {
    seq(|cases|, i requires 0 <= i < |cases| => AddTestCase(cases[i], CasePath(groupPath, cases[i])))
  }

  /** What happened to the group: the events, and the error that ended it early, if any. */
  datatype GroupRun = GroupRun(trace: seq<Event>, error: Option<GroupError>)

  /**
   * The events of a group whose definitions are all found: the eager files,
   * the first flush, the case files, the second flush, the test cases; a
   * failed flush ends the trace right after it.
   */
  function GroupTrace(eager: seq<Event>, groupPath: string, cases: seq<string>, flushFails: (bool, bool)): seq<Event> {
    if flushFails.0 then eager + [Flush]
    else if flushFails.1 then eager + [Flush] + AddEvents(groupPath, cases) + [Flush]
    else eager + [Flush] + AddEvents(groupPath, cases) + [Flush] + CaseEvents(groupPath, cases)
  }

  /** The error a failed flush throws, the first flush's taking precedence. */
  function FlushError(flushFails: (bool, bool)): Option<GroupError> {
    if flushFails.0 then Some(FlushFailed(false))
    else if flushFails.1 then Some(FlushFailed(true))
    else None
  }

  lemma AddEventsNext(groupPath: string, cases: seq<string>, i: int)
    requires 0 <= i < |cases|
    ensures AddEvents(groupPath, cases[..i + 1]) == AddEvents(groupPath, cases[..i]) + [AddFile(CasePath(groupPath, cases[i]))]
  {
    PrefixNext(cases, i);
  }

  lemma CaseEventsNext(groupPath: string, cases: seq<string>, i: int)
    requires 0 <= i < |cases|
    ensures CaseEvents(groupPath, cases[..i + 1]) == CaseEvents(groupPath, cases[..i]) + [AddTestCase(cases[i], CasePath(groupPath, cases[i]))]
  {
    PrefixNext(cases, i);
  }

  /** The case files registered one by one, between the two flushes. */
  method AddCaseFiles(trace: seq<Event>, groupPath: string, cases: seq<string>) returns (t: seq<Event>)
    ensures t == trace + AddEvents(groupPath, cases)
  {
    t := trace;
    for i := 0 to |cases|
      invariant t == trace + AddEvents(groupPath, cases[..i])
    {
      AddEventsNext(groupPath, cases, i);
      t := t + [AddFile(CasePath(groupPath, cases[i]))];
    }
    PrefixWhole(cases);
  }

  /** The test cases created one by one, after the second flush. */
  method AddTestCases(trace: seq<Event>, groupPath: string, cases: seq<string>) returns (t: seq<Event>)
    ensures t == trace + CaseEvents(groupPath, cases)
  {
    t := trace;
    for i := 0 to |cases|
      invariant t == trace + CaseEvents(groupPath, cases[..i])
    {
      CaseEventsNext(groupPath, cases, i);
      t := t + [AddTestCase(cases[i], CasePath(groupPath, cases[i]))];
    }
    PrefixWhole(cases);
  }

  /**
   * `addTestGroup` (test.js:12-31). `flushFails` gives the outcome of the
   * first and the second flush; a failed flush throws, ending the group.
   */
  method AddTestGroup(root: string, groupPath: string, info: TestInfo, entries: seq<string>,
                      files: set<string>, flushFails: (bool, bool))
    returns (run: GroupRun)
    ensures ResolveDefs(info.defs, DefLookup(groupPath, root, files)).Err? ==>
      run == GroupRun([], Some(DefNotFound(ResolveDefs(info.defs, DefLookup(groupPath, root, files)).error)))
    ensures ResolveDefs(info.defs, DefLookup(groupPath, root, files)).Ok? ==>
      run == GroupRun(GroupTrace(EagerEvents(info.loadEagerly, root), groupPath, SelectCases(entries), flushFails),
                      FlushError(flushFails))
  {
    var server := NewTernServer(root, groupPath, info, files);
    if server.Err? {
      return GroupRun([], Some(server.error));
    }
    var cases := Sort(JsFiles(entries));
    var trace := server.value.1 + [Flush];
    if flushFails.0 {
      return GroupRun(trace, FlushError(flushFails));
    }
    trace := AddCaseFiles(trace, groupPath, cases);
    trace := trace + [Flush];
    if flushFails.1 {
      return GroupRun(trace, FlushError(flushFails));
    }
    trace := AddTestCases(trace, groupPath, cases);
    run := GroupRun(trace, None);
  }

  /**
   * The order of a group that runs to the end: the eager files, the first
   * flush, every case file added, the second flush, then every test case
   * created, cases in sorted order both times; there are no other flushes.
   */
  lemma GroupOrder(eager: seq<Event>, groupPath: string, cases: seq<string>, k: int)
    requires forall i :: 0 <= i < |eager| ==> eager[i].AddFile?
    requires 0 <= k < |eager| + 2 * |cases| + 2
    ensures var t := GroupTrace(eager, groupPath, cases, (false, false));
      var first, second := |eager|, |eager| + |cases| + 1;
      && |t| == |eager| + 2 * |cases| + 2
      && (t[k] == Flush <==> k == first || k == second)
      && (first < k < second ==> t[k] == AddFile(CasePath(groupPath, cases[k - first - 1])))
      && (second < k ==> t[k] == AddTestCase(cases[k - second - 1], CasePath(groupPath, cases[k - second - 1])))
  {
    var adds, tests := AddEvents(groupPath, cases), CaseEvents(groupPath, cases);
    var t := eager + [Flush] + adds + [Flush] + tests;
    var first, second := |eager|, |eager| + |cases| + 1;
    if k < first {
      assert t[k] == eager[k];
    } else if first < k < second {
      assert t[k] == adds[k - first - 1];
    } else if second < k {
      assert t[k] == tests[k - second - 1];
    }
  }
}
