/**
 * The definition snapshot a test case takes before its directives run
 * (test.js:42-46): the stream of `(path, prop, local, alias)` callbacks
 * that scopevisitor makes while walking the analysis session's scope
 * graph is folded into four plain objects, `locals`, `nonlocals`,
 * `aliases.local` and `aliases.nonlocal`, keyed by dotted path.
 */
module Snapshot {
  import opened Wrappers

  /** An AST node handle; equal handles mean the same node object. */
  type NodeId = nat

  /** The tern property a path resolves to, reduced to the node it was defined at, if any. */
  datatype Prop = Prop(originNode: Option<NodeId>)

  /**
   * One scopevisitor callback. `alias` is the empty string for every falsy
   * alias value (`undefined`, `null`, `""`).
   */
  datatype Visit = Visit(path: string, prop: Prop, local: bool, alias: string)

  datatype Tables = Tables(
    locals: map<string, Prop>,
    nonlocals: map<string, Prop>,
    localAliases: map<string, string>,
    nonlocalAliases: map<string, string>)
  {
    /** The definition table a callback writes to (test.js:44): `locals` for a local definition, else `nonlocals`. */
    function Table(local: bool): map<string, Prop> {
      if local then locals else nonlocals
    }

    /** The alias table a callback writes to (test.js:45), chosen the same way. */
    function AliasTable(local: bool): map<string, string> {
      if local then localAliases else nonlocalAliases
    }

    /** The table a DEF kind selects (test.js:58): `locals` or `nonlocals` by name, undefined for any other kind. */
    function DefsOf(kind: string): (r: Option<map<string, Prop>>)
      ensures r.Some? <==> kind == "local" || kind == "nonlocal"
      ensures r.Some? ==> r.value == Table(kind == "local")
    {
      if kind == "nonlocal" then Some(nonlocals)
      else if kind == "local" then Some(locals)
      else None
    }

    /** The alias table a DEF kind selects (test.js:65): undefined for any kind but the two buckets. */
    function AliasesOf(kind: string): (r: Option<map<string, string>>)
      ensures r.Some? <==> kind == "local" || kind == "nonlocal"
      ensures r.Some? ==> r.value == AliasTable(kind == "local")
    {
      if kind == "nonlocal" then Some(nonlocalAliases)
      else if kind == "local" then Some(localAliases)
      else None
    }
  }

  /** The four tables as test.js:42 creates them: all empty. */
  const Empty: Tables := Tables(map[], map[], map[], map[])

  /** Every recorded alias is truthy. */
  predicate AliasesTruthy(s: Tables) {
    (forall p :: p in s.localAliases ==> s.localAliases[p] != "")
    && (forall p :: p in s.nonlocalAliases ==> s.nonlocalAliases[p] != "")
  }

  /** The callback body: one visit's effect on the snapshot. */
  function Record(s: Tables, v: Visit): (r: Tables)
    // the visit's own bucket gets the property, whatever was there before
    ensures r.Table(v.local) == s.Table(v.local)[v.path := v.prop]
    ensures r.Table(!v.local) == s.Table(!v.local)
    // a truthy alias is recorded in the same bucket; a falsy one changes nothing
    ensures r.AliasTable(v.local) == if v.alias != "" then s.AliasTable(v.local)[v.path := v.alias] else s.AliasTable(v.local)
    ensures r.AliasTable(!v.local) == s.AliasTable(!v.local)
    ensures AliasesTruthy(s) ==> AliasesTruthy(r)
  {
    var s1 := if v.local then s.(locals := s.locals[v.path := v.prop])
              else s.(nonlocals := s.nonlocals[v.path := v.prop]);
    if v.alias == "" then s1
    else if v.local then s1.(localAliases := s1.localAliases[v.path := v.alias])
    else s1.(nonlocalAliases := s1.nonlocalAliases[v.path := v.alias])
  }

  /** The snapshot after the callbacks `vs`, in order. */
  function Fold(vs: seq<Visit>): Tables
    decreases |vs|
  {
    if vs == [] then Empty else Record(Fold(vs[..|vs| - 1]), vs[|vs| - 1])
  }

  /** `scopevisitor.inspect(..., callback)`: runs the callback once per visit, in order. */
  method Inspect(visits: seq<Visit>) returns (snap: Tables)
    ensures snap == Fold(visits)
    ensures AliasesTruthy(snap)
  {
    var locals: map<string, Prop> := map[];
    var nonlocals: map<string, Prop> := map[];
    var localAliases: map<string, string> := map[];
    var nonlocalAliases: map<string, string> := map[];
    for i := 0 to |visits|
      invariant Tables(locals, nonlocals, localAliases, nonlocalAliases) == Fold(visits[..i])
      invariant AliasesTruthy(Tables(locals, nonlocals, localAliases, nonlocalAliases))
    {
      var v := visits[i];
      assert visits[..i + 1][..i] == visits[..i];
      if v.local {
        locals := locals[v.path := v.prop];
      } else {
        nonlocals := nonlocals[v.path := v.prop];
      }
      if v.alias != "" {
        if v.local {
          localAliases := localAliases[v.path := v.alias];
        } else {
          nonlocalAliases := nonlocalAliases[v.path := v.alias];
        }
      }
    }
    assert visits[..|visits|] == visits;
    snap := Tables(locals, nonlocals, localAliases, nonlocalAliases);
  }

  /** Visit `i` writes `path` into bucket `local`. */
  predicate Writes(vs: seq<Visit>, i: int, path: string, local: bool) {
    0 <= i < |vs| && vs[i].path == path && vs[i].local == local
  }

  /** Visit `i` records a truthy alias for `path` in bucket `local`. */
  predicate WritesAlias(vs: seq<Visit>, i: int, path: string, local: bool) {
    Writes(vs, i, path, local) && vs[i].alias != ""
  }

  /** A visit of a prefix writes what it writes in the whole sequence. */
  lemma WritesInPrefix(vs: seq<Visit>, n: int, j: int, path: string, local: bool)
    requires 0 <= j < n <= |vs|
    ensures Writes(vs[..n], j, path, local) == Writes(vs, j, path, local)
    ensures WritesAlias(vs[..n], j, path, local) == WritesAlias(vs, j, path, local)
  {
    assert vs[..n][j] == vs[j];
  }

  /** A path is in a bucket exactly when some visit wrote it there. */
  lemma {:induction false} FoldKeys(vs: seq<Visit>, path: string, local: bool)
    ensures path in Fold(vs).Table(local) <==> exists i :: Writes(vs, i, path, local)
    decreases |vs|
  {
    if vs != [] {
      var n := |vs| - 1;
      var init := vs[..n];
      FoldKeys(init, path, local);
      if exists i :: Writes(init, i, path, local) {
        var i :| Writes(init, i, path, local);
        assert Writes(vs, i, path, local);
      }
      if exists i :: Writes(vs, i, path, local) {
        var i :| Writes(vs, i, path, local);
        if i < n {
          assert Writes(init, i, path, local);
        }
      }
      if path in Fold(vs).Table(local) && !Writes(vs, n, path, local) {
        assert path in Fold(init).Table(local);
      }
    }
  }

  /** The last visit of a path in a bucket decides its entry: later visits overwrite earlier ones. */
  lemma {:induction false} FoldLastWrite(vs: seq<Visit>, i: int)
    requires 0 <= i < |vs|
    requires forall j :: i < j < |vs| ==> !Writes(vs, j, vs[i].path, vs[i].local)
    ensures vs[i].path in Fold(vs).Table(vs[i].local)
    ensures Fold(vs).Table(vs[i].local)[vs[i].path] == vs[i].prop
    decreases |vs|
  {
    var n := |vs| - 1;
    if i < n {
      var init := vs[..n];
      forall j | i < j < |init| ensures !Writes(init, j, vs[i].path, vs[i].local) {
        WritesInPrefix(vs, n, j, vs[i].path, vs[i].local);
      }
      WritesInPrefix(vs, n, i, vs[i].path, vs[i].local);
      FoldLastWrite(init, i);
      assert !Writes(vs, n, vs[i].path, vs[i].local);
    }
  }

  /** A path has an alias in a bucket exactly when some visit recorded a truthy one. */
  lemma {:induction false} FoldAliasKeys(vs: seq<Visit>, path: string, local: bool)
    ensures path in Fold(vs).AliasTable(local) <==> exists i :: WritesAlias(vs, i, path, local)
    decreases |vs|
  {
    if vs != [] {
      var n := |vs| - 1;
      var init := vs[..n];
      FoldAliasKeys(init, path, local);
      if exists i :: WritesAlias(init, i, path, local) {
        var i :| WritesAlias(init, i, path, local);
        assert WritesAlias(vs, i, path, local);
      }
      if exists i :: WritesAlias(vs, i, path, local) {
        var i :| WritesAlias(vs, i, path, local);
        if i < n {
          assert WritesAlias(init, i, path, local);
        }
      }
      if path in Fold(vs).AliasTable(local) && !WritesAlias(vs, n, path, local) {
        assert path in Fold(init).AliasTable(local);
      }
    }
  }

  /**
   * The last truthy alias recorded for a path stays: visits of the same
   * path without an alias never erase it.
   */
  lemma {:induction false} FoldLastAlias(vs: seq<Visit>, i: int)
    requires 0 <= i < |vs| && vs[i].alias != ""
    requires forall j :: i < j < |vs| ==> !WritesAlias(vs, j, vs[i].path, vs[i].local)
    ensures vs[i].path in Fold(vs).AliasTable(vs[i].local)
    ensures Fold(vs).AliasTable(vs[i].local)[vs[i].path] == vs[i].alias
    decreases |vs|
  {
    var n := |vs| - 1;
    if i < n {
      var init := vs[..n];
      forall j | i < j < |init| ensures !WritesAlias(init, j, vs[i].path, vs[i].local) {
        WritesInPrefix(vs, n, j, vs[i].path, vs[i].local);
      }
      WritesInPrefix(vs, n, i, vs[i].path, vs[i].local);
      FoldLastAlias(init, i);
      assert !WritesAlias(vs, n, vs[i].path, vs[i].local);
    }
  }

  /** The snapshot never holds a falsy alias, so "absent or falsy" is "absent". */
  lemma {:induction false} FoldAliasesTruthy(vs: seq<Visit>)
    ensures AliasesTruthy(Fold(vs))
    decreases |vs|
  {
    if vs != [] {
      FoldAliasesTruthy(vs[..|vs| - 1]);
    }
  }
}
